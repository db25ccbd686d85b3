/** The upload loop both server actions run over the submitted files: every
    non-empty file is stored under a time-stamped name with its white space
    runs turned into `_`, and the public URL of every upload that succeeded
    is kept, in input order. */
module Attachments {
  import opened Text

  /** A submitted file: its name and its size in bytes. */
  datatype File = File(name: string, size: int)

  /** The attachment bucket: which uploads fail, and the public URL the bucket gives a stored name. */
  datatype Bucket = Bucket(uploadFails: string -> bool, publicUrl: string -> string)

  /** The object name a file is stored under: `prefix`, the clock reading, `_`, and the file's
      name with every run of white space replaced by one `_`. */
  function StoredName(prefix: string, stamp: int, name: string): string {
    prefix + IntToString(stamp) + "_" + ReplaceSpaceRuns(name, "_")
  }

  /** After the stamp, a stored name holds no white space; a name without white space is kept as it is. */
  lemma StoredNameSanitises(prefix: string, stamp: int, name: string)
    ensures var head := prefix + IntToString(stamp) + "_";
      var r := StoredName(prefix, stamp, name);
      head <= r && NoSpace(r[|head|..]) && (NoSpace(name) ==> r == head + name)
  {
    ReplaceSpaceRunsLeavesNoSpace(name, "_");
    if NoSpace(name) {
      ReplaceSpaceRunsKeepsWords(name, "_");
    }
    var head := prefix + IntToString(stamp) + "_";
    assert StoredName(prefix, stamp, name)[|head|..] == ReplaceSpaceRuns(name, "_");
  }

  /** The file handled at clock reading `stamp` is non-empty and its upload succeeds. */
  predicate Kept(f: File, stamp: int, prefix: string, bucket: Bucket) {
    f.size > 0 && !bucket.uploadFails(StoredName(prefix, stamp, f.name))
  }

  /** The public URL of the file handled at clock reading `stamp`. */
  function UrlOf(f: File, stamp: int, prefix: string, bucket: Bucket): string {
    bucket.publicUrl(StoredName(prefix, stamp, f.name))
  }

  /** The URLs the loop collects. */
  function UploadedUrls(files: seq<File>, prefix: string, clock: nat -> int, bucket: Bucket): (r: seq<string>)
    ensures |r| <= |files|
  {
    if files == [] then []
    else
      var n := |files| - 1;
      UploadedUrls(files[..n], prefix, clock, bucket) +
        (if Kept(files[n], clock(n), prefix, bucket) then [UrlOf(files[n], clock(n), prefix, bucket)] else [])
  }

  /** The indices of the kept files. */
  function KeptIndices(files: seq<File>, prefix: string, clock: nat -> int, bucket: Bucket): seq<nat> {
    if files == [] then []
    else
      var n := |files| - 1;
      KeptIndices(files[..n], prefix, clock, bucket) + (if Kept(files[n], clock(n), prefix, bucket) then [n] else [])
  }

  /** Every kept index names a kept file. */
  lemma {:induction false} KeptIndicesAreKept(files: seq<File>, prefix: string, clock: nat -> int, bucket: Bucket)
    ensures forall j :: 0 <= j < |KeptIndices(files, prefix, clock, bucket)| ==>
      KeptIndices(files, prefix, clock, bucket)[j] < |files| &&
      Kept(files[KeptIndices(files, prefix, clock, bucket)[j]], clock(KeptIndices(files, prefix, clock, bucket)[j]), prefix, bucket)
  {
    if files != [] {
      var n := |files| - 1;
      KeptIndicesAreKept(files[..n], prefix, clock, bucket);
      var rest := KeptIndices(files[..n], prefix, clock, bucket);
      var r := KeptIndices(files, prefix, clock, bucket);
      forall j | 0 <= j < |r| ensures r[j] < |files| && Kept(files[r[j]], clock(r[j]), prefix, bucket) {
        if j < |rest| {
          assert r[j] == rest[j];
          assert files[..n][rest[j]] == files[rest[j]];
        }
      }
    }
  }

  /** Every kept file's index is among the kept indices. */
  lemma {:induction false} KeptFilesAreIndexed(files: seq<File>, prefix: string, clock: nat -> int, bucket: Bucket)
    ensures forall i :: 0 <= i < |files| && Kept(files[i], clock(i), prefix, bucket) ==>
      i in KeptIndices(files, prefix, clock, bucket)
  {
    if files != [] {
      var n := |files| - 1;
      KeptFilesAreIndexed(files[..n], prefix, clock, bucket);
      var rest := KeptIndices(files[..n], prefix, clock, bucket);
      var r := KeptIndices(files, prefix, clock, bucket);
      assert r == rest + (if Kept(files[n], clock(n), prefix, bucket) then [n] else []);
      forall i | 0 <= i < |files| && Kept(files[i], clock(i), prefix, bucket) ensures i in r {
        if i < n {
          assert files[..n][i] == files[i];
          assert i in rest;
        }
      }
    }
  }

  /** The kept indices increase, so the kept files are listed in input order. */
  lemma {:induction false} KeptIndicesIncrease(files: seq<File>, prefix: string, clock: nat -> int, bucket: Bucket)
    ensures forall j :: 0 <= j < |KeptIndices(files, prefix, clock, bucket)| ==>
      KeptIndices(files, prefix, clock, bucket)[j] < |files|
    ensures forall j, k :: 0 <= j < k < |KeptIndices(files, prefix, clock, bucket)| ==>
      KeptIndices(files, prefix, clock, bucket)[j] < KeptIndices(files, prefix, clock, bucket)[k]
  {
    if files != [] {
      var n := |files| - 1;
      KeptIndicesIncrease(files[..n], prefix, clock, bucket);
      var rest := KeptIndices(files[..n], prefix, clock, bucket);
      var r := KeptIndices(files, prefix, clock, bucket);
      assert r == rest + (if Kept(files[n], clock(n), prefix, bucket) then [n] else []);
      assert forall j :: 0 <= j < |rest| ==> r[j] == rest[j];
    }
  }

  /** The collected list is exactly the public URLs of the kept files, in input order: an empty
      file or a failed upload leaves no trace and no gap. */
  lemma {:induction false} UploadedUrlsAreKeptFiles(files: seq<File>, prefix: string, clock: nat -> int, bucket: Bucket)
    ensures |UploadedUrls(files, prefix, clock, bucket)| == |KeptIndices(files, prefix, clock, bucket)|
    ensures forall j :: 0 <= j < |KeptIndices(files, prefix, clock, bucket)| ==>
      KeptIndices(files, prefix, clock, bucket)[j] < |files| &&
      UploadedUrls(files, prefix, clock, bucket)[j] ==
        UrlOf(files[KeptIndices(files, prefix, clock, bucket)[j]], clock(KeptIndices(files, prefix, clock, bucket)[j]), prefix, bucket)
  {
    if files != [] {
      var n := |files| - 1;
      UploadedUrlsAreKeptFiles(files[..n], prefix, clock, bucket);
      var rest := KeptIndices(files[..n], prefix, clock, bucket);
      var ks := KeptIndices(files, prefix, clock, bucket);
      var urls := UploadedUrls(files, prefix, clock, bucket);
      var before := UploadedUrls(files[..n], prefix, clock, bucket);
      var keep := Kept(files[n], clock(n), prefix, bucket);
      assert ks == rest + (if keep then [n] else []);
      assert urls == before + (if keep then [UrlOf(files[n], clock(n), prefix, bucket)] else []);
      forall j | 0 <= j < |ks| ensures ks[j] < |files| && urls[j] == UrlOf(files[ks[j]], clock(ks[j]), prefix, bucket) {
        if j < |rest| {
          assert ks[j] == rest[j] && urls[j] == before[j];
          assert files[..n][rest[j]] == files[rest[j]];
        }
      }
    }
  }

  /** When every file is non-empty and every upload succeeds, there is one URL per file. */
  lemma {:induction false} AllKeptWhenNothingFails(files: seq<File>, prefix: string, clock: nat -> int, bucket: Bucket)
    requires forall i :: 0 <= i < |files| ==> Kept(files[i], clock(i), prefix, bucket)
    ensures |UploadedUrls(files, prefix, clock, bucket)| == |files|
    ensures forall i :: 0 <= i < |files| ==> UploadedUrls(files, prefix, clock, bucket)[i] == UrlOf(files[i], clock(i), prefix, bucket)
  {
    if files != [] {
      var n := |files| - 1;
      forall i | 0 <= i < n ensures Kept(files[..n][i], clock(i), prefix, bucket) {
        assert files[..n][i] == files[i];
      }
      AllKeptWhenNothingFails(files[..n], prefix, clock, bucket);
      var before := UploadedUrls(files[..n], prefix, clock, bucket);
      var urls := UploadedUrls(files, prefix, clock, bucket);
      assert urls == before + [UrlOf(files[n], clock(n), prefix, bucket)];
      forall i | 0 <= i < n ensures urls[i] == UrlOf(files[i], clock(i), prefix, bucket) {
        assert urls[i] == before[i] && files[..n][i] == files[i];
      }
    }
  }

  /** Only empty files: nothing is uploaded. */
  lemma {:induction false} EmptyFilesUploadNothing(files: seq<File>, prefix: string, clock: nat -> int, bucket: Bucket)
    requires forall i :: 0 <= i < |files| ==> files[i].size <= 0
    ensures UploadedUrls(files, prefix, clock, bucket) == []
  {
    if files != [] {
      EmptyFilesUploadNothing(files[..|files| - 1], prefix, clock, bucket);
    }
  }

  /** The loop as the actions run it. */
  method UploadAll(files: seq<File>, prefix: string, clock: nat -> int, bucket: Bucket) returns (urls: seq<string>)
    ensures urls == UploadedUrls(files, prefix, clock, bucket)
  {
    urls := [];
    var i := 0;
    while i < |files|
      invariant 0 <= i <= |files|
      invariant urls == UploadedUrls(files[..i], prefix, clock, bucket)
    {
      var file := files[i];
      assert files[..i + 1][..i] == files[..i];
      if file.size > 0 {
        var fileName := prefix + IntToString(clock(i)) + "_" + ReplaceSpaceRuns(file.name, "_");
        if !bucket.uploadFails(fileName) {
          urls := urls + [bucket.publicUrl(fileName)];
        }
      }
      i := i + 1;
    }
    assert files[..i] == files;
  }
}
