/** The attachment list of FileUpload.tsx: `handleFiles`, which appends the
    acceptable picked files up to a cap, and `removeFile`. Reading a file's
    content is abstracted as a value that is either present or absent. */
module FileUpload {
  import opened Domain
  import opened Helpers
  import opened Seqs

  /** A file the user picked or dropped; `content` is None when reading it
      failed. */
  datatype PickedFile = PickedFile(name: string, size: int, mimeType: string, content: Option<string>)

  /** The default `maxFiles`. */
  const DefaultMaxFiles: int := 5

  /** The two checks a picked file must pass before it is read. */
  predicate Acceptable(p: PickedFile) {
    IsValidFileType(p.mimeType) && IsValidFileSize(p.size)
  }

  /** `a` is the attachment built from picked file `p` under `id`. */
  predicate CopiedFrom(a: Attachment, p: PickedFile, id: string, now: int) {
    && p.content.Some?
    && a == Attachment(id, p.name, p.size, p.mimeType, p.content.value, now)
  }

  /** The attachment built from an acceptable, readable picked file. */
  function Attach(p: PickedFile, id: string, now: int): (a: Attachment)
    requires p.content.Some?
    ensures CopiedFrom(a, p, id, now)
  {
    Attachment(id, p.name, p.size, p.mimeType, p.content.value, now)
  }

  /** Whether `handleFiles` turns a picked file into an attachment, given a
      free slot. */
  predicate Admissible(p: PickedFile) {
    Acceptable(p) && p.content.Some?
  }

  /** The attachments `handleFiles` produces from `picked` when `count` files
      are already held or accepted: stop once `count` reaches `maxFiles`,
      skip unacceptable or unreadable files without using a slot. `ids[i]`
      is the id generated for `picked[i]`. */
  function Admitted(count: int, maxFiles: int, picked: seq<PickedFile>, ids: seq<string>, now: int): seq<Attachment>
    requires |ids| == |picked|
    decreases |picked|
  {
    if picked == [] || count >= maxFiles then []
    else if Admissible(picked[0]) then
      [Attach(picked[0], ids[0], now)] + Admitted(count + 1, maxFiles, picked[1..], ids[1..], now)
    else Admitted(count, maxFiles, picked[1..], ids[1..], now)
  }

  /** At most one attachment per picked file, none once the cap is reached,
      and never more than the free slots. */
  lemma {:induction false} AdmittedBounds(count: int, maxFiles: int, picked: seq<PickedFile>, ids: seq<string>, now: int)
    requires |ids| == |picked|
    ensures var r := Admitted(count, maxFiles, picked, ids, now);
      && |r| <= |picked|
      && (count >= maxFiles ==> r == [])
      && (count <= maxFiles ==> count + |r| <= maxFiles)
    decreases |picked|
  {
    if picked != [] && count < maxFiles {
      AdmittedBounds(if Admissible(picked[0]) then count + 1 else count, maxFiles, picked[1..], ids[1..], now);
    }
  }

  /** Every attachment has an allowed type and a size within the limit. */
  predicate AllValid(rs: seq<Attachment>) {
    forall i :: 0 <= i < |rs| ==> IsValidFileType(rs[i].mimeType) && rs[i].size <= MaxFileSize
  }

  /** Every admitted attachment has an allowed type and a size within the
      limit. */
  lemma {:induction false} AdmittedValid(count: int, maxFiles: int, picked: seq<PickedFile>, ids: seq<string>, now: int)
    requires |ids| == |picked|
    ensures AllValid(Admitted(count, maxFiles, picked, ids, now))
    decreases |picked|
  {
    if picked != [] && count < maxFiles {
      var next := if Admissible(picked[0]) then count + 1 else count;
      AdmittedValid(next, maxFiles, picked[1..], ids[1..], now);
      var rest := Admitted(next, maxFiles, picked[1..], ids[1..], now);
      if Admissible(picked[0]) {
        var a := Attach(picked[0], ids[0], now);
        var r := [a] + rest;
        assert Admitted(count, maxFiles, picked, ids, now) == r;
        assert IsValidFileType(a.mimeType) && a.size <= MaxFileSize;
        assert forall i :: 1 <= i < |r| ==> r[i] == rest[i - 1];
      }
    }
  }

  /** Every attachment in `rs` is built from one of the picked files, under
      that file's id. */
  predicate SourcedFrom(rs: seq<Attachment>, picked: seq<PickedFile>, ids: seq<string>, now: int)
    requires |ids| == |picked|
  {
    forall i :: 0 <= i < |rs| ==> exists j :: 0 <= j < |picked| && CopiedFrom(rs[i], picked[j], ids[j], now)
  }

  /** Every admitted attachment copies name, size and type from one of the
      picked files, under that file's id. */
  lemma {:induction false} AdmittedComeFromPicked(count: int, maxFiles: int, picked: seq<PickedFile>, ids: seq<string>, now: int)
    requires |ids| == |picked|
    ensures SourcedFrom(Admitted(count, maxFiles, picked, ids, now), picked, ids, now)
    decreases |picked|
  {
    if picked != [] && count < maxFiles {
      var next := if Admissible(picked[0]) then count + 1 else count;
      AdmittedComeFromPicked(next, maxFiles, picked[1..], ids[1..], now);
      var rest := Admitted(next, maxFiles, picked[1..], ids[1..], now);
      var r := Admitted(count, maxFiles, picked, ids, now);
      assert r == (if Admissible(picked[0]) then [Attach(picked[0], ids[0], now)] + rest else rest);
      forall i | 0 <= i < |r|
        ensures exists j :: 0 <= j < |picked| && CopiedFrom(r[i], picked[j], ids[j], now)
      {
        if Admissible(picked[0]) && i == 0 {
          assert CopiedFrom(r[0], picked[0], ids[0], now);
        } else {
          var i' := if Admissible(picked[0]) then i - 1 else i;
          assert r[i] == rest[i'];
          assert SourcedFrom(rest, picked[1..], ids[1..], now);
          var j :| 0 <= j < |picked[1..]| && CopiedFrom(rest[i'], picked[1..][j], ids[1..][j], now);
          assert CopiedFrom(r[i], picked[j + 1], ids[j + 1], now);
        }
      }
    }
  }

  /** One step of `handleFiles` from position `i` with a free slot. */
  lemma AdmittedStep(count: int, maxFiles: int, picked: seq<PickedFile>, ids: seq<string>, now: int, i: int)
    requires |ids| == |picked| && 0 <= i < |picked| && count < maxFiles
    ensures Admitted(count, maxFiles, picked[i..], ids[i..], now) ==
      if Admissible(picked[i]) then [Attach(picked[i], ids[i], now)] + Admitted(count + 1, maxFiles, picked[i + 1..], ids[i + 1..], now)
      else Admitted(count, maxFiles, picked[i + 1..], ids[i + 1..], now)
  {
    assert picked[i..][1..] == picked[i + 1..] && ids[i..][1..] == ids[i + 1..];
  }

  /** `AdmittedStep` with the attachments gathered so far in front. */
  lemma GatherStep(gathered: seq<Attachment>, count: int, maxFiles: int, picked: seq<PickedFile>, ids: seq<string>, now: int, i: int)
    requires |ids| == |picked| && 0 <= i < |picked| && count < maxFiles
    ensures Admissible(picked[i]) ==>
      gathered + Admitted(count, maxFiles, picked[i..], ids[i..], now) ==
      (gathered + [Attach(picked[i], ids[i], now)]) + Admitted(count + 1, maxFiles, picked[i + 1..], ids[i + 1..], now)
    ensures !Admissible(picked[i]) ==>
      Admitted(count, maxFiles, picked[i..], ids[i..], now) == Admitted(count, maxFiles, picked[i + 1..], ids[i + 1..], now)
  {
    AdmittedStep(count, maxFiles, picked, ids, now, i);
    if Admissible(picked[i]) {
      var tail := Admitted(count + 1, maxFiles, picked[i + 1..], ids[i + 1..], now);
      assert gathered + ([Attach(picked[i], ids[i], now)] + tail) == (gathered + [Attach(picked[i], ids[i], now)]) + tail;
    }
  }

  /** `handleFiles`: the held files, unchanged, followed by the admitted
      picked files in input order. */
  method HandleFiles(files: seq<Attachment>, picked: seq<PickedFile>, ids: seq<string>, maxFiles: int, now: int)
    returns (result: seq<Attachment>)
    requires |ids| == |picked|
    ensures result == files + Admitted(|files|, maxFiles, picked, ids, now)
  {
    var newFiles: seq<Attachment> := [];
    var i := 0;
    assert picked[i..] == picked && ids[i..] == ids;
    while i < |picked| && |files| + |newFiles| < maxFiles
      invariant 0 <= i <= |picked|
      invariant newFiles + Admitted(|files| + |newFiles|, maxFiles, picked[i..], ids[i..], now)
                == Admitted(|files|, maxFiles, picked, ids, now)
      decreases |picked| - i
    {
      var file := picked[i];
      ghost var count := |files| + |newFiles|;
      GatherStep(newFiles, count, maxFiles, picked, ids, now, i);
      if IsValidFileType(file.mimeType) && IsValidFileSize(file.size) && file.content.Some? {
        assert Admissible(picked[i]);
        var attachment := Attachment(ids[i], file.name, file.size, file.mimeType, file.content.value, now);
        assert attachment == Attach(picked[i], ids[i], now);
        newFiles := newFiles + [attachment];
        assert |files| + |newFiles| == count + 1;
        assert newFiles + Admitted(count + 1, maxFiles, picked[i + 1..], ids[i + 1..], now)
               == Admitted(|files|, maxFiles, picked, ids, now);
      } else {
        assert !Admissible(picked[i]);
        assert newFiles + Admitted(count, maxFiles, picked[i + 1..], ids[i + 1..], now)
               == Admitted(|files|, maxFiles, picked, ids, now);
      }
      i := i + 1;
    }
    assert i == |picked| ==> picked[i..] == [];
    AdmittedBounds(|files| + |newFiles|, maxFiles, picked[i..], ids[i..], now);
    assert Admitted(|files| + |newFiles|, maxFiles, picked[i..], ids[i..], now) == [];
    result := files + newFiles;
  }

  /** What `handleFiles` promises about its result: the held files stay in
      front unchanged, the list never grows past the cap, a full list is left
      alone, and everything added passed the type and size checks. */
  lemma HandleFilesResult(files: seq<Attachment>, picked: seq<PickedFile>, ids: seq<string>, maxFiles: int, now: int)
    requires |ids| == |picked|
    ensures var result := files + Admitted(|files|, maxFiles, picked, ids, now);
      && result[..|files|] == files
      && (|files| <= maxFiles ==> |result| <= maxFiles)
      && (|files| >= maxFiles ==> result == files)
      && forall i :: |files| <= i < |result| ==> IsValidFileType(result[i].mimeType) && result[i].size <= MaxFileSize
  {
    var added := Admitted(|files|, maxFiles, picked, ids, now);
    var result := files + added;
    AdmittedBounds(|files|, maxFiles, picked, ids, now);
    assert result[..|files|] == files;
    AdmittedValid(|files|, maxFiles, picked, ids, now);
    assert forall i :: |files| <= i < |result| ==> result[i] == added[i - |files|];
  }

  /** A file that fails a check or cannot be read is skipped without using a
      slot: removing it from the input changes nothing. */
  lemma {:induction false} SkippedFileIsTransparent(count: int, maxFiles: int, picked: seq<PickedFile>, ids: seq<string>, now: int, k: nat)
    requires |ids| == |picked| && k < |picked|
    requires !Admissible(picked[k])
    ensures Admitted(count, maxFiles, picked, ids, now) ==
            Admitted(count, maxFiles, picked[..k] + picked[k + 1..], ids[..k] + ids[k + 1..], now)
    decreases k
  {
    var picked' := picked[..k] + picked[k + 1..];
    var ids' := ids[..k] + ids[k + 1..];
    if count >= maxFiles {
    } else if k == 0 {
      assert picked' == picked[1..] && ids' == ids[1..];
    } else {
      assert picked'[0] == picked[0] && ids'[0] == ids[0];
      assert picked'[1..] == picked[1..][..k - 1] + picked[1..][k..];
      assert ids'[1..] == ids[1..][..k - 1] + ids[1..][k..];
      if Admissible(picked[0]) {
        SkippedFileIsTransparent(count + 1, maxFiles, picked[1..], ids[1..], now, k - 1);
      } else {
        SkippedFileIsTransparent(count, maxFiles, picked[1..], ids[1..], now, k - 1);
      }
    }
  }

  /** `removeFile`: every attachment with that id dropped, the others kept
      in order. */
  function RemoveFile(files: seq<Attachment>, id: string): (r: seq<Attachment>)
    ensures forall i :: 0 <= i < |r| ==> r[i].id != id
    ensures forall i :: 0 <= i < |files| && files[i].id != id ==> files[i] in r
    ensures forall i :: 0 <= i < |r| ==> r[i] in files
    ensures IsSubsequence(r, files)
  {
    Filter(files, (a: Attachment) => a.id != id)
  }

  /** Removing an id that is not present changes nothing. */
  lemma RemoveAbsentId(files: seq<Attachment>, id: string)
    requires forall i :: 0 <= i < |files| ==> files[i].id != id
    ensures RemoveFile(files, id) == files
  {
    FilterKeepsAll(files, (a: Attachment) => a.id != id);
  }
}
