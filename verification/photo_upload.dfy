/** The photo upload hook: the checks on a chosen file, the storage path
    it is stored under, the path recovered from a stored photo's public URL
    when the photo is deleted, and the `uploading` / `error` state the hook
    keeps around those calls. */
module PhotoUpload {
  import opened Common
  import opened Text

  const NotAnImage := "Please select an image file"
  const TooLarge := "Image must be less than 5MB"
  const UploadFailed := "Failed to upload photo"
  const DeleteFailed := "Failed to delete photo"

  /** The largest accepted size, 5 MiB. */
  const MaxBytes: nat := 5 * 1024 * 1024

  /** The storage bucket's marker inside a public URL. */
  const BucketMarker := "/member-photos/"

  /** The chosen file, as far as the hook reads it. */
  datatype FileInfo = FileInfo(name: string, mimeType: string, size: nat)

  /** `s.startsWith(prefix)`. */
  predicate StartsWith(s: string, prefix: string)
  {
    |prefix| <= |s| && s[..|prefix|] == prefix
  }

  /** The file checks, in order: the type first, then the size. */
  function CheckFile(f: FileInfo): (err: Option<string>)
    ensures !StartsWith(f.mimeType, "image/") ==> err == Some(NotAnImage)
    ensures StartsWith(f.mimeType, "image/") && f.size > MaxBytes ==> err == Some(TooLarge)
    ensures err.None? <==> StartsWith(f.mimeType, "image/") && f.size <= MaxBytes
  {
    if !StartsWith(f.mimeType, "image/") then Some(NotAnImage)
    else if f.size > MaxBytes then Some(TooLarge)
    else None
  }

  /** An image of exactly 5 MiB is accepted and one byte more is refused. */
  lemma SizeBoundary(mimeType: string)
    requires StartsWith(mimeType, "image/")
    ensures CheckFile(FileInfo("", mimeType, 5242880)).None?
    ensures CheckFile(FileInfo("", mimeType, 5242881)) == Some(TooLarge)
  {
  }

  /** The stored file's extension: the name's last '.'-piece, lower-cased,
      or 'jpg' when that is empty; `lower` stands for `toLowerCase`. */
  function Extension(name: string, lower: string -> string): string
  {
    Pick(Truthy(lower(LastPiece(name, '.'))), "jpg")
  }

  /** The extension is what follows the last dot of the name, lower-cased,
      and 'jpg' when that is empty (a name ending in '.' included). */
  lemma ExtensionAfterLastDot(base: string, suffix: string, lower: string -> string)
    requires '.' !in suffix
    ensures Extension(base + "." + suffix, lower) == (if lower(suffix) == "" then "jpg" else lower(suffix))
  {
    SplitLastOfJoin(base, suffix);
  }

  /** A name without a dot is its own extension, lower-cased (or 'jpg'). */
  lemma ExtensionWithoutDot(name: string, lower: string -> string)
    requires '.' !in name
    ensures Extension(name, lower) == (if lower(name) == "" then "jpg" else lower(name))
  {
    assert Split(name, '.') == [name];
  }

  /** The storage path: `personId/timestamp.ext`; `stamp` stands for the
      decimal text of `Date.now()`. */
  function StoragePath(personId: Id, stamp: string, ext: string): (path: string)
    ensures path == personId + "/" + stamp + "." + ext
  {
    personId + "/" + stamp + "." + ext
  }

  /** A path built for a person reads back, split at '/', as the person's
      folder and the file name, and the file name's last dot-piece is the
      extension (given none of the parts holds the separators). */
  lemma StoragePathParts(personId: Id, stamp: string, ext: string)
    requires '/' !in personId && '/' !in stamp && '/' !in ext && '.' !in ext
    ensures Split(StoragePath(personId, stamp, ext), '/') == [personId, stamp + "." + ext]
    ensures LastPiece(stamp + "." + ext, '.') == ext
  {
    var file := stamp + "." + ext;
    assert '/' !in file by {
      forall i | 0 <= i < |file| ensures file[i] != '/' {
        if i < |stamp| { assert file[i] == stamp[i]; }
        else if i > |stamp| { assert file[i] == ext[i - |stamp| - 1]; }
      }
    }
    SplitJoin([personId, file], '/');
    assert Join([personId, file], '/') == StoragePath(personId, stamp, ext);
    SplitLastOfJoin(stamp, ext);
  }

  /** The last dot-piece of `stamp.ext` is `ext` when `ext` has no dot. */
  lemma SplitLastOfJoin(stamp: string, ext: string)
    requires '.' !in ext
    ensures LastPiece(stamp + "." + ext, '.') == ext
  {
    var s := stamp + "." + ext;
    SplitLast(s, '.');
    var piece := LastPiece(s, '.');
    assert s[|stamp|] == '.';
    // No dot after the one that follows the stamp, and none in the piece.
    assert forall i :: |stamp| < i < |s| ==> s[i] != '.' by {
      forall i | |stamp| < i < |s| ensures s[i] != '.' {
        assert s[i] == ext[i - |stamp| - 1];
      }
    }
    assert forall i :: |s| - |piece| <= i < |s| ==> s[i] != '.' by {
      forall i | |s| - |piece| <= i < |s| ensures s[i] != '.' {
        assert s[i] == piece[i - (|s| - |piece|)];
      }
    }
    assert |piece| == |ext|;
    assert piece == s[|s| - |ext|..] == ext;
  }

  /** The path removed when a photo is deleted: the text between the first
      '/member-photos/' of the URL and the next one (or the end); nothing
      when the URL does not hold the marker. */
  function DeletePath(url: string): (path: Option<string>)
    ensures path.Some? <==> Includes(url, BucketMarker)
    ensures path.Some? ==> !Includes(path.value, BucketMarker)
  {
    var first := IndexOf(url, BucketMarker);
    if first.None? then None
    else
      var rest := url[first.value + |BucketMarker|..];
      var next := IndexOf(rest, BucketMarker);
      if next.Some? then
        forall k: nat ensures !OccursAt(rest[..next.value], BucketMarker, k) {
          OccursInPrefix(rest, next.value, BucketMarker, k);
        }
        Some(rest[..next.value])
      else
        Some(rest)
  }

  /** An occurrence inside a prefix is an occurrence in the whole. */
  lemma OccursInPrefix(s: string, n: nat, sub: string, k: nat)
    requires n <= |s|
    ensures OccursAt(s[..n], sub, k) ==> OccursAt(s, sub, k) && k + |sub| <= n
  {
    if OccursAt(s[..n], sub, k) {
      assert s[..n][k..k + |sub|] == s[k..k + |sub|];
    }
  }

  /** A URL made of a prefix, the marker and a path reads back that path,
      when the marker first occurs right after the prefix and the path
      holds no marker. */
  lemma DeletePathRoundTrip(prefix: string, path: string)
    requires forall k: nat :: k < |prefix| ==> !OccursAt(prefix + BucketMarker + path, BucketMarker, k)
    requires forall k: nat :: !OccursAt(path, BucketMarker, k)
    ensures DeletePath(prefix + BucketMarker + path) == Some(path)
  {
    var url := prefix + BucketMarker + path;
    assert url[|prefix|..|prefix| + |BucketMarker|] == BucketMarker;
    assert OccursAt(url, BucketMarker, |prefix|);
    assert IndexOf(url, BucketMarker) == Some(|prefix|);
    assert url[|prefix| + |BucketMarker|..] == path;
  }

  /** A URL holding the marker twice reads back the text between the two,
      when the first marker is the first occurrence and no occurrence
      starts inside that text. */
  lemma DeletePathBetween(prefix: string, path: string, tail: string)
    requires forall k: nat :: k < |prefix| ==> !OccursAt(prefix + BucketMarker + path + BucketMarker + tail, BucketMarker, k)
    requires forall k: nat :: k < |path| ==> !OccursAt(path + BucketMarker + tail, BucketMarker, k)
    ensures DeletePath(prefix + BucketMarker + path + BucketMarker + tail) == Some(path)
  {
    var rest := path + BucketMarker + tail;
    var url := prefix + BucketMarker + rest;
    assert url == prefix + BucketMarker + path + BucketMarker + tail;
    assert url[|prefix|..|prefix| + |BucketMarker|] == BucketMarker;
    FirstOccurrence(url, BucketMarker, |prefix|);
    assert url[|prefix| + |BucketMarker|..] == rest;
    assert rest[|path|..|path| + |BucketMarker|] == BucketMarker;
    FirstOccurrence(rest, BucketMarker, |path|);
    assert rest[..|path|] == path;
  }

  /** An occurrence with none before it is the one `indexOf` finds. */
  lemma FirstOccurrence(s: string, sub: string, k: nat)
    requires OccursAt(s, sub, k)
    requires forall j: nat :: j < k ==> !OccursAt(s, sub, j)
    ensures IndexOf(s, sub) == Some(k)
  {
  }

  /** The hook's state. */
  class PhotoHook {
    var uploading: bool
    var error: Option<string>

    constructor()
      ensures !uploading && error.None?
    {
      uploading := false;
      error := None;
    }

    /** `uploadPhoto`. A file failing a check is refused with that check's
        message and nothing is stored. Otherwise the file is stored at its
        path (`storeOutcome`) and, if that worked, an update setting the
        person's photo_url to the path's public URL is sent
        (`urlUpdateSent`); when it succeeds (`updateOutcome`) the URL is
        returned. A failed call records its message or the default one.
        `uploading` is false again on every exit. */
    method Upload(file: FileInfo, personId: Id, stamp: string, lower: string -> string,
                  storeOutcome: CallOutcome, publicUrl: string -> string, updateOutcome: CallOutcome)
      returns (r: Result<string>, storedAt: Option<string>, urlUpdateSent: Option<string>)
      modifies this
      ensures !uploading
      ensures CheckFile(file).Some? ==>
        r == Failure(CheckFile(file).value) && error == Some(CheckFile(file).value)
        && storedAt.None? && urlUpdateSent.None?
      ensures CheckFile(file).None? ==> storedAt == Some(StoragePath(personId, stamp, Extension(file.name, lower)))
      ensures CheckFile(file).None? && storeOutcome.Rejected? ==>
        r == Failure(Pick(storeOutcome.message, UploadFailed)) && error == Some(Pick(storeOutcome.message, UploadFailed))
        && urlUpdateSent.None?
      ensures CheckFile(file).None? && storeOutcome.Resolved? ==>
        urlUpdateSent == Some(publicUrl(storedAt.value))
      ensures CheckFile(file).None? && storeOutcome.Resolved? && updateOutcome.Rejected? ==>
        r == Failure(Pick(updateOutcome.message, UploadFailed)) && error == Some(Pick(updateOutcome.message, UploadFailed))
      ensures CheckFile(file).None? && storeOutcome.Resolved? && updateOutcome.Resolved? ==>
        r == Ok(urlUpdateSent.value) && error.None?
    {
      uploading := true;
      error := None;
      storedAt, urlUpdateSent := None, None;
      var check := CheckFile(file);
      if check.Some? {
        error := Some(check.value);
        r := Failure(check.value);
      } else {
        var path := StoragePath(personId, stamp, Extension(file.name, lower));
        storedAt := Some(path);
        if storeOutcome.Rejected? {
          var msg := Pick(storeOutcome.message, UploadFailed);
          error := Some(msg);
          r := Failure(msg);
        } else {
          var url := publicUrl(path);
          urlUpdateSent := Some(url);
          if updateOutcome.Rejected? {
            var msg := Pick(updateOutcome.message, UploadFailed);
            error := Some(msg);
            r := Failure(msg);
          } else {
            r := Ok(url);
          }
        }
      }
      uploading := false;
    }

    /** `deletePhoto`: asks storage to remove the file only when its path
        can be read from the URL (`removed`). The removal's returned error is
        not checked, but a rejected call (`removeOutcome`) ends the handler
        with its message or the default one, before any update is sent.
        Otherwise an update clearing the person's photo_url is sent
        (`clearSent`); photo_url is cleared when it succeeds
        (`updateOutcome`), and its failure records its message or the
        default one. `uploading` is untouched. */
    method Delete(personId: Id, photoUrl: string, removeOutcome: CallOutcome, updateOutcome: CallOutcome)
      returns (r: Result<()>, removed: Option<string>, clearSent: bool)
      modifies this
      ensures removed == DeletePath(photoUrl)
      ensures uploading == old(uploading)
      ensures removed.Some? && removeOutcome.Rejected? ==>
        !clearSent && r == Failure(Pick(removeOutcome.message, DeleteFailed))
        && error == Some(Pick(removeOutcome.message, DeleteFailed))
      ensures removed.None? || removeOutcome.Resolved? ==> clearSent
      ensures (removed.None? || removeOutcome.Resolved?) && updateOutcome.Resolved? ==> r == Ok(()) && error.None?
      ensures (removed.None? || removeOutcome.Resolved?) && updateOutcome.Rejected? ==>
        r == Failure(Pick(updateOutcome.message, DeleteFailed)) && error == Some(Pick(updateOutcome.message, DeleteFailed))
    {
      error := None;
      clearSent := false;
      removed := DeletePath(photoUrl);
      if removed.Some? && removeOutcome.Rejected? {
        var msg := Pick(removeOutcome.message, DeleteFailed);
        error := Some(msg);
        return Failure(msg), removed, clearSent;
      }
      clearSent := true;
      if updateOutcome.Rejected? {
        var msg := Pick(updateOutcome.message, DeleteFailed);
        error := Some(msg);
        r := Failure(msg);
      } else {
        r := Ok(());
      }
    }
  }
}
