/** The page's batch controller: the files waiting to be processed, the
    results received so far, the progress label and the busy flag, and the
    user actions that change them. */
module Batch {
  import opened Common
  import Decimal
  import OptimizeRoute
  import opened Results
  import Savings
  import Archive

  /** A file the user selected or dropped: the same name-and-bytes record the
      endpoint receives as its `file` field. */
  type File = OptimizeRoute.Upload

  function FileName(f: File): string {
    f.name
  }

  /** The page's state: pending files, results, progress label, busy flag,
      and the chosen preset and quality. */
  datatype BatchState = BatchState(
    files: seq<File>,
    results: seq<Processed>,
    status: string,
    processing: bool,
    preset: string,
    quality: int)

  /** The state when the page first renders. */
  const Initial: BatchState := BatchState([], [], "", false, "instagram", 80)

  /** Selecting or dropping files replaces the pending list and forgets every
      earlier result and the progress label. */
  function Select(s: BatchState, chosen: seq<File>): (s': BatchState)
    ensures s'.files == chosen && s'.results == [] && s'.status == ""
    ensures s'.processing == s.processing && s'.preset == s.preset && s'.quality == s.quality
  {
    s.(files := chosen, results := [], status := "")
  }

  /** "Clear All & Start Over": no files, no results, no label. */
  function ClearAll(s: BatchState): (s': BatchState)
    ensures s'.files == [] && s'.results == [] && s'.status == ""
    ensures s'.processing == s.processing && s'.preset == s.preset && s'.quality == s.quality
  {
    s.(files := [], results := [], status := "")
  }

  /** The remove button on a pending file: every file with that name goes,
      results stay as they are. */
  function RemovePending(s: BatchState, name: string): (s': BatchState)
    ensures s'.files == WithoutName(s.files, FileName, name)
    ensures s' == s.(files := s'.files)
  {
    s.(files := WithoutName(s.files, FileName, name))
  }

  /** `removeImage(name)`: every result with that file name goes, pending
      files stay as they are. */
  function RemoveResult(s: BatchState, name: string): (s': BatchState)
    ensures s'.results == WithoutName(s.results, ResultName, name)
    ensures s' == s.(results := s'.results)
  {
    s.(results := WithoutName(s.results, ResultName, name))
  }

  function SetPreset(s: BatchState, preset: string): BatchState {
    s.(preset := preset)
  }

  function SetQuality(s: BatchState, quality: int): BatchState {
    s.(quality := quality)
  }

  /** The form the page posts for one file: the file, the chosen preset and
      `String(quality)`. */
  function RequestFor(s: BatchState, f: File): (form: OptimizeRoute.Form)
    ensures form.file == Some(f)
    ensures OptimizeRoute.Quality(form) == Some(s.quality)
    ensures s.preset != "" ==> OptimizeRoute.PresetName(form) == s.preset
    ensures OptimizeRoute.Valid(form) <==> s.preset == "" || s.preset in OptimizeRoute.Presets
  {
    Decimal.ParseIntOfIntToDecimal(s.quality);
    OptimizeRoute.Form(Some(f), Some(s.preset), Some(Decimal.IntToDecimal(s.quality)))
  }

  /** What one request contributes: nothing when the request fails to
      complete (`delivered` false) or the answer is not a success; the JSON
      body otherwise. */
  function Receive(delivered: bool, response: OptimizeRoute.Response): (o: Option<Processed>)
    ensures o.Some? <==> delivered && response.Ok?
    ensures o.Some? ==> o.value == FromBody(response.body)
  {
    if delivered && response.Ok? then Some(FromBody(response.body)) else None
  }

  /** The results a sequence of per-file outcomes leaves: the successful ones,
      in order. */
  function Successes(outcomes: seq<Option<Processed>>): seq<Processed>
  {
    if |outcomes| == 0 then []
    else
      var earlier := Successes(outcomes[..|outcomes| - 1]);
      match outcomes[|outcomes| - 1]
      case Some(p) => earlier + [p]
      case None => earlier
  }

  /** How many outcomes were failures. */
  function FailedCount(outcomes: seq<Option<Processed>>): nat
  {
    if |outcomes| == 0 then 0
    else FailedCount(outcomes[..|outcomes| - 1]) + (if outcomes[|outcomes| - 1].None? then 1 else 0)
  }

  const ProcessingWord: string := "Processing "
  const OfWord: string := " of "
  const NameSeparator: string := ": "

  /** The label shown while file `i` (counting from 0) is being sent. */
  function ProgressLabel(i: nat, files: seq<File>): string
    requires i < |files|
  {
    ProcessingWord + (Decimal.NatToDecimal(i + 1) + (OfWord + (Decimal.NatToDecimal(|files|) + (NameSeparator + files[i].name))))
  }

  /** The label left when the batch is over; it counts attempted files. */
  function DoneLabel(attempted: nat): string {
    "Processed " + (Decimal.NatToDecimal(attempted) + " images.")
  }

  /** The progress label reads "Processing ", then a number that reads back
      as the 1-based position of the file. */
  lemma ProgressLabelPosition(i: nat, files: seq<File>)
    requires i < |files|
    ensures ProgressLabel(i, files)[..|ProcessingWord|] == ProcessingWord
    ensures Decimal.ParseInt(ProgressLabel(i, files)[|ProcessingWord|..]) == Some(i + 1)
  {
    var ordinal := Decimal.NatToDecimal(i + 1);
    var total := Decimal.NatToDecimal(|files|);
    Layout(ProcessingWord, ordinal, OfWord, total, NameSeparator, files[i].name);
    assert OfWord[0] == ' ' && NameSeparator[0] == ':';
    TwoCountsReadBack(ProcessingWord, ordinal, OfWord, total, NameSeparator, files[i].name, i + 1, |files|);
  }

  /** After the position, the progress label reads " of ". */
  lemma ProgressLabelOf(i: nat, files: seq<File>)
    requires i < |files|
    ensures ProgressLabel(i, files)[|ProcessingWord| + |Decimal.NatToDecimal(i + 1)|..
      |ProcessingWord| + |Decimal.NatToDecimal(i + 1)| + |OfWord|] == OfWord
  {
    var ordinal := Decimal.NatToDecimal(i + 1);
    var total := Decimal.NatToDecimal(|files|);
    Layout(ProcessingWord, ordinal, OfWord, total, NameSeparator, files[i].name);
  }

  /** After " of ", the progress label holds a number that reads back as the
      number of files. */
  lemma ProgressLabelTotal(i: nat, files: seq<File>)
    requires i < |files|
    ensures Decimal.ParseInt(ProgressLabel(i, files)[|ProcessingWord| + |Decimal.NatToDecimal(i + 1)| + |OfWord|..]) == Some(|files|)
  {
    var ordinal := Decimal.NatToDecimal(i + 1);
    var total := Decimal.NatToDecimal(|files|);
    assert OfWord[0] == ' ' && NameSeparator[0] == ':';
    TwoCountsReadBack(ProcessingWord, ordinal, OfWord, total, NameSeparator, files[i].name, i + 1, |files|);
  }

  /** The progress label ends with the file's name. */
  lemma ProgressLabelEndsWithName(i: nat, files: seq<File>)
    requires i < |files|
    ensures |ProgressLabel(i, files)| > |ProcessingWord| + |Decimal.NatToDecimal(i + 1)| + |OfWord| + |files[i].name|
    ensures ProgressLabel(i, files)[|ProgressLabel(i, files)| - |files[i].name|..] == files[i].name
  {
    var ordinal := Decimal.NatToDecimal(i + 1);
    var total := Decimal.NatToDecimal(|files|);
    Layout(ProcessingWord, ordinal, OfWord, total, NameSeparator, files[i].name);
  }

  /** Both counts in `h + a + s + b + s2 + n` read back, when `a` and `b` are
      decimal counts and the separators do not start with a digit. */
  lemma TwoCountsReadBack(h: string, a: string, s: string, b: string, s2: string, n: string, x: nat, y: nat)
    requires a == Decimal.NatToDecimal(x) && b == Decimal.NatToDecimal(y)
    requires |s| > 0 && !Decimal.IsDigit(s[0])
    requires |s2| > 0 && !Decimal.IsDigit(s2[0])
    ensures Decimal.ParseInt((h + (a + (s + (b + (s2 + n)))))[|h|..]) == Some(x)
    ensures Decimal.ParseInt((h + (a + (s + (b + (s2 + n)))))[|h| + |a| + |s|..]) == Some(y)
  {
    Layout(h, a, s, b, s2, n);
    ReadsBackCount(a, s + (b + (s2 + n)), x);
    ReadsBackCount(b, s2 + n, y);
  }

  /** Where the parts of `h + a + s + b + s2 + n` sit. */
  lemma Layout<T>(h: seq<T>, a: seq<T>, s: seq<T>, b: seq<T>, s2: seq<T>, n: seq<T>)
    ensures |h + (a + (s + (b + (s2 + n))))| == |h| + |a| + |s| + |b| + |s2| + |n|
    ensures (h + (a + (s + (b + (s2 + n)))))[..|h|] == h
    ensures (h + (a + (s + (b + (s2 + n)))))[|h|..] == a + (s + (b + (s2 + n)))
    ensures (h + (a + (s + (b + (s2 + n)))))[|h| + |a|..|h| + |a| + |s|] == s
    ensures (h + (a + (s + (b + (s2 + n)))))[|h| + |a| + |s|..] == b + (s2 + n)
    ensures (h + (a + (s + (b + (s2 + n)))))[|h + (a + (s + (b + (s2 + n))))| - |n|..] == n
  {
    var text := h + (a + (s + (b + (s2 + n))));
    var r1 := a + (s + (b + (s2 + n)));
    var r2 := s + (b + (s2 + n));
    assert text[|h|..] == r1;
    assert r1[|a|..] == r2;
    assert text[|h| + |a|..] == r2;
    assert r2[..|s|] == s;
    assert r2[|s|..] == b + (s2 + n);
  }

  /** The closing label reads "Processed ", then a number that reads back as
      the count of attempted files, then " images.". */
  lemma DoneLabelReadsBack(attempted: nat)
    ensures var text := DoneLabel(attempted);
      && text[..|"Processed "|] == "Processed "
      && Decimal.ParseInt(text[|"Processed "|..]) == Some(attempted)
      && text[|text| - |" images."|..] == " images."
  {
    var count := Decimal.NatToDecimal(attempted);
    ReadsBackCount(count, " images.", attempted);
    Framed("Processed ", count + " images.", " images.");
  }

  /** A text made of a head and a body ending in `tail` splits back into them. */
  lemma Framed(head: string, body: string, tail: string)
    requires |body| >= |tail| && body[|body| - |tail|..] == tail
    ensures (head + body)[..|head|] == head
    ensures (head + body)[|head|..] == body
    ensures (head + body)[|head + body| - |tail|..] == tail
  {
    assert (head + body)[|head + body| - |tail|..] == body[|body| - |tail|..];
  }

  /** A count written out in decimal and followed by text that does not start
      with a digit reads back as the count. */
  lemma ReadsBackCount(digits: string, rest: string, n: nat)
    requires digits == Decimal.NatToDecimal(n)
    requires |rest| > 0 && !Decimal.IsDigit(rest[0])
    ensures Decimal.ParseInt(digits + rest) == Some(n)
  {
    Decimal.ParseIntIgnoresTrailingText(digits, rest);
    Decimal.DigitsValueOfNatToDecimal(n);
  }

  /** The state at the moment file `i` is sent: busy, labelled, holding the
      results of the files before it. */
  function StepState(s: BatchState, outcomes: seq<Option<Processed>>, i: nat): BatchState
    requires i < |s.files| && i <= |outcomes|
  {
    s.(results := Successes(outcomes[..i]), status := ProgressLabel(i, s.files), processing := true)
  }

  /** "Process" with one outcome per pending file, taken in selection order
      and one at a time. `trace[i]` is the state while file `i` is in
      flight; `done` is the state afterwards. An empty list does nothing. */
  method ProcessBatch(s: BatchState, outcomes: seq<Option<Processed>>) returns (done: BatchState, trace: seq<BatchState>)
    requires |outcomes| == |s.files|
    ensures |s.files| == 0 ==> done == s && trace == []
    ensures |s.files| > 0 ==>
      done == s.(results := Successes(outcomes), status := DoneLabel(|s.files|), processing := false)
    ensures |s.files| > 0 ==> |done.results| + FailedCount(outcomes) == |s.files|
    ensures |trace| == |s.files|
    ensures forall i :: 0 <= i < |trace| ==> trace[i] == StepState(s, outcomes, i)
  {
    if |s.files| == 0 {
      return s, [];
    }
    var current := s.(processing := true, results := []);
    var processed: seq<Processed> := [];
    trace := [];
    var i := 0;
    while i < |s.files|
      invariant 0 <= i <= |s.files|
      invariant processed == Successes(outcomes[..i])
      invariant current == s.(processing := true, results := processed, status := current.status)
      invariant |trace| == i
      invariant forall j :: 0 <= j < i ==> trace[j] == StepState(s, outcomes, j)
    {
      current := current.(status := ProgressLabel(i, s.files));
      trace := trace + [current];
      match outcomes[i] {
        case Some(p) =>
          processed := processed + [p];
          current := current.(results := processed);
        case None =>
      }
      assert outcomes[..i + 1][..i] == outcomes[..i];
      i := i + 1;
    }
    assert outcomes[..i] == outcomes;
    SuccessesCount(outcomes);
    done := current.(processing := false, status := DoneLabel(|s.files|));
  }

  /** A new selection, like "Clear All", leaves nothing to total and nothing
      to download. */
  lemma SelectDiscardsEarlierBatch(s: BatchState, chosen: seq<File>)
    ensures Savings.TotalOriginalSize(Select(s, chosen).results) == 0
    ensures Savings.TotalSavedPercent(Select(s, chosen).results) == 0
    ensures Archive.DownloadZip(Select(s, chosen).results).None?
    ensures Archive.DownloadZip(ClearAll(s).results).None? && ClearAll(s).files == []
  {
  }

  /** Removing the one result with a given name shrinks the list by one and
      keeps every other result, unchanged and in order; pending files stay. */
  lemma RemoveOnlyResultWithName(s: BatchState, k: int)
    requires 0 <= k < |s.results|
    requires CountName(s.results, ResultName, s.results[k].fileName) == 1
    ensures RemoveResult(s, s.results[k].fileName).results == s.results[..k] + s.results[k + 1..]
    ensures |RemoveResult(s, s.results[k].fileName).results| == |s.results| - 1
    ensures RemoveResult(s, s.results[k].fileName).files == s.files
  {
    WithoutUniqueName(s.results, ResultName, s.results[k].fileName, k);
  }

  /** Every successful outcome yields a result and every failure yields none. */
  lemma {:induction false} SuccessesCount(outcomes: seq<Option<Processed>>)
    ensures |Successes(outcomes)| + FailedCount(outcomes) == |outcomes|
    decreases |outcomes|
  {
    if |outcomes| > 0 {
      SuccessesCount(outcomes[..|outcomes| - 1]);
    }
  }

  /** A failure does not stop the batch: the results of two runs of files
      back to back are the results of each run, concatenated. */
  lemma {:induction false} SuccessesAppend(a: seq<Option<Processed>>, b: seq<Option<Processed>>)
    ensures Successes(a + b) == Successes(a) + Successes(b)
    decreases |b|
  {
    if |b| == 0 {
      assert a + b == a;
    } else {
      var b' := b[..|b| - 1];
      assert (a + b)[..|a + b| - 1] == a + b';
      assert (a + b)[|a + b| - 1] == b[|b| - 1];
      SuccessesAppend(a, b');
    }
  }

  /** A result is kept exactly when some file produced it. */
  lemma {:induction false} SuccessesMembers(outcomes: seq<Option<Processed>>, p: Processed)
    ensures p in Successes(outcomes) <==> Some(p) in outcomes
    decreases |outcomes|
  {
    if |outcomes| > 0 {
      var init := outcomes[..|outcomes| - 1];
      SuccessesMembers(init, p);
      assert outcomes == init + [outcomes[|outcomes| - 1]];
    }
  }

  /** When every file succeeds, the results are the answers in file order. */
  lemma {:induction false} SuccessesAllSucceed(outcomes: seq<Option<Processed>>)
    requires forall i :: 0 <= i < |outcomes| ==> outcomes[i].Some?
    ensures |Successes(outcomes)| == |outcomes|
    ensures forall i :: 0 <= i < |outcomes| ==> Successes(outcomes)[i] == outcomes[i].value
    decreases |outcomes|
  {
    if |outcomes| > 0 {
      SuccessesAllSucceed(outcomes[..|outcomes| - 1]);
    }
  }

  /** Three files, the second of which fails: two results (the first and the
      third) and a closing label that still says three. */
  lemma ThreeFilesSecondFails(f1: File, f2: File, f3: File, r1: Processed, r3: Processed)
    ensures var s := Select(Initial, [f1, f2, f3]);
      var outcomes := [Some(r1), None, Some(r3)];
      Successes(outcomes) == [r1, r3] && DoneLabel(|s.files|) == "Processed 3 images."
  {
    var outcomes := [Some(r1), None, Some(r3)];
    assert outcomes[..2] == [Some(r1), None];
    assert outcomes[..2][..1] == [Some(r1)];
    assert outcomes[..2][..1][..0] == [];
    assert Successes(outcomes[..2][..1]) == [] + [r1];
    assert Successes(outcomes[..2]) == [r1];
    assert Decimal.NatToDecimal(3) == "3";
  }

  /** One file sent with a catalog preset and accepted by the image library
      comes back as a result with the file's name and both byte counts. */
  lemma OneFileAgainstEndpoint(s: BatchState, f: File, codec: OptimizeRoute.Codec)
    requires s.preset in OptimizeRoute.Presets
    requires codec(OptimizeRoute.Plan(RequestFor(s, f))).Some?
    ensures var o := Receive(true, OptimizeRoute.Handle(RequestFor(s, f), codec));
      && o.Some?
      && o.value.fileName == f.name
      && o.value.originalSize == Some(|f.bytes|)
      && o.value.newSize == Some(|codec(OptimizeRoute.Plan(RequestFor(s, f))).value|)
  {
  }

  /** The whole path from page to endpoint and back: when every request is
      delivered, the preset is a catalog key and the image library accepts
      every file, each file yields exactly one result, in order, carrying the
      file's name and its byte count before and after. */
  lemma ProcessAgainstEndpoint(s: BatchState, codec: OptimizeRoute.Codec, outcomes: seq<Option<Processed>>)
    requires s.preset in OptimizeRoute.Presets
    requires |outcomes| == |s.files|
    requires forall i :: 0 <= i < |s.files| ==>
      outcomes[i] == Receive(true, OptimizeRoute.Handle(RequestFor(s, s.files[i]), codec))
    requires forall i :: 0 <= i < |s.files| ==> codec(OptimizeRoute.Plan(RequestFor(s, s.files[i]))).Some?
    ensures |Successes(outcomes)| == |s.files|
    ensures forall i :: 0 <= i < |s.files| ==>
      && Successes(outcomes)[i].fileName == s.files[i].name
      && Successes(outcomes)[i].originalSize == Some(|s.files[i].bytes|)
  {
    forall i | 0 <= i < |s.files|
      ensures outcomes[i].Some?
      ensures outcomes[i].value.fileName == s.files[i].name
      ensures outcomes[i].value.originalSize == Some(|s.files[i].bytes|)
    {
      OneFileAgainstEndpoint(s, s.files[i], codec);
    }
    SuccessesAllSucceed(outcomes);
  }
}
