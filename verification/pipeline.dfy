/**
 The batch run behind the convert button (`main`): every upload is converted
 on its own, failures are reported and dropped, the successes are kept in
 upload order, and an archive is offered only when there is at least one.
 */
module Pipeline {

  import opened Optional
  import opened Text
  import opened Converter
  import opened Archiver
  import opened Formats

  /** The result of converting each upload on its own. */
  function Results<Img>(
    uploads: seq<Bytes>,
    outputFormat: string,
    decode: Bytes -> Option<Decoded<Img>>,
    encode: (Img, string) -> Option<Bytes>
  ): (rs: seq<ConversionResult>)
    ensures |rs| == |uploads|
    ensures forall i :: 0 <= i < |uploads| ==> rs[i] == Convert(uploads[i], outputFormat, decode, encode)
  {
    seq(|uploads|, i requires 0 <= i < |uploads| => Convert(uploads[i], outputFormat, decode, encode))
  }

  /** Each upload is converted in isolation: its result depends on its own
      bytes only, never on its neighbours in the batch. */
  lemma ConversionsIndependent<Img>(
    uploads: seq<Bytes>,
    others: seq<Bytes>,
    i: nat,
    outputFormat: string,
    decode: Bytes -> Option<Decoded<Img>>,
    encode: (Img, string) -> Option<Bytes>
  )
    requires i < |uploads| && i < |others| && uploads[i] == others[i]
    ensures Results(uploads, outputFormat, decode, encode)[i] == Results(others, outputFormat, decode, encode)[i]
  {
  }

  /** The converted buffers the batch keeps, in upload order. */
  function Successes(rs: seq<ConversionResult>): (out: seq<Bytes>)
    ensures |out| <= |rs|
  {
    if rs == [] then []
    else
      var last := rs[|rs| - 1];
      Successes(rs[..|rs| - 1]) + (if last.Converted? then [last.data] else [])
  }

  /** The failures the batch reports, one per failed upload, in upload order. */
  function Failures(rs: seq<ConversionResult>): (out: seq<FailReason>)
    ensures |out| <= |rs|
  {
    if rs == [] then []
    else
      var last := rs[|rs| - 1];
      Failures(rs[..|rs| - 1]) + (if last.Failed? then [last.reason] else [])
  }

  /** The positions whose result is a success (`converted`) or a failure
      (`!converted`), in increasing order. */
  function Positions(rs: seq<ConversionResult>, converted: bool): seq<nat> {
    if rs == [] then []
    else
      var n := |rs| - 1;
      Positions(rs[..n], converted) + (if rs[n].Converted? == converted then [n] else [])
  }

  /** The positions of the successful results. */
  function SuccessIndices(rs: seq<ConversionResult>): seq<nat> {
    Positions(rs, true)
  }

  /** The positions of the failed results. */
  function FailureIndices(rs: seq<ConversionResult>): seq<nat> {
    Positions(rs, false)
  }

  ghost predicate Increasing(idx: seq<nat>) {
    forall j, k :: 0 <= j < k < |idx| ==> idx[j] < idx[k]
  }

  /** `idx` lists, in increasing order, every position whose result is of the
      kind `converted`, and nothing else. */
  ghost predicate ListsPositionsOf(rs: seq<ConversionResult>, idx: seq<nat>, converted: bool) {
    && Increasing(idx)
    && (forall j :: 0 <= j < |idx| ==> idx[j] < |rs| && rs[idx[j]].Converted? == converted)
    && (forall i :: 0 <= i < |rs| && rs[i].Converted? == converted ==> i in idx)
  }

  /** `out` is the bytes of the results at `idx`, one for one. */
  ghost predicate PicksSuccesses(rs: seq<ConversionResult>, idx: seq<nat>, out: seq<Bytes>) {
    && |idx| == |out|
    && (forall j :: 0 <= j < |idx| ==> idx[j] < |rs| && rs[idx[j]] == Converted(out[j]))
  }

  /** `out` is the failure reasons of the results at `idx`, one for one. */
  ghost predicate PicksFailures(rs: seq<ConversionResult>, idx: seq<nat>, out: seq<FailReason>) {
    && |idx| == |out|
    && (forall j :: 0 <= j < |idx| ==> idx[j] < |rs| && rs[idx[j]] == Failed(out[j]))
  }

  /** `idx` picks out, in increasing order, exactly the successful results,
      and `out` lists their bytes in that order. */
  ghost predicate IsSuccessSubsequence(rs: seq<ConversionResult>, idx: seq<nat>, out: seq<Bytes>) {
    ListsPositionsOf(rs, idx, true) && PicksSuccesses(rs, idx, out)
  }

  /** `idx` picks out, in increasing order, exactly the failed results,
      and `out` lists their reasons in that order. */
  ghost predicate IsFailureSubsequence(rs: seq<ConversionResult>, idx: seq<nat>, out: seq<FailReason>) {
    ListsPositionsOf(rs, idx, false) && PicksFailures(rs, idx, out)
  }

  /** The positions lie inside the batch, have the asked kind, and increase. */
  lemma {:induction false} PositionsIncreasing(rs: seq<ConversionResult>, converted: bool)
    ensures Increasing(Positions(rs, converted))
    ensures forall j :: 0 <= j < |Positions(rs, converted)| ==>
      Positions(rs, converted)[j] < |rs| && rs[Positions(rs, converted)[j]].Converted? == converted
  {
    if rs != [] {
      var n := |rs| - 1;
      var init := rs[..n];
      var pi := Positions(init, converted);
      PositionsIncreasing(init, converted);
      var idx := Positions(rs, converted);
      forall j | 0 <= j < |pi|
        ensures idx[j] == pi[j] && rs[idx[j]] == init[pi[j]]
      {
      }
    }
  }

  /** Every position of the asked kind is listed. */
  lemma {:induction false} PositionsCover(rs: seq<ConversionResult>, converted: bool)
    ensures forall i :: 0 <= i < |rs| && rs[i].Converted? == converted ==> i in Positions(rs, converted)
  {
    if rs != [] {
      var n := |rs| - 1;
      var init := rs[..n];
      PositionsCover(init, converted);
      forall i | 0 <= i < |rs| && rs[i].Converted? == converted
        ensures i in Positions(rs, converted)
      {
        if i < n {
          assert init[i] == rs[i];
        }
      }
    }
  }

  /** The k-th kept buffer is the output at the k-th success position. */
  lemma {:induction false} SuccessIndicesPick(rs: seq<ConversionResult>)
    ensures PicksSuccesses(rs, SuccessIndices(rs), Successes(rs))
  {
    if rs != [] {
      var n := |rs| - 1;
      var init := rs[..n];
      var pi, po := SuccessIndices(init), Successes(init);
      SuccessIndicesPick(init);
      var idx, out := SuccessIndices(rs), Successes(rs);
      forall j | 0 <= j < |pi|
        ensures idx[j] == pi[j] && out[j] == po[j] && rs[idx[j]] == Converted(out[j])
      {
        assert init[pi[j]] == rs[pi[j]];
      }
    }
  }

  /** The k-th reported reason is the reason at the k-th failure position. */
  lemma {:induction false} FailureIndicesPick(rs: seq<ConversionResult>)
    ensures PicksFailures(rs, FailureIndices(rs), Failures(rs))
  {
    if rs != [] {
      var n := |rs| - 1;
      var init := rs[..n];
      var pi, po := FailureIndices(init), Failures(init);
      FailureIndicesPick(init);
      var idx, out := FailureIndices(rs), Failures(rs);
      forall j | 0 <= j < |pi|
        ensures idx[j] == pi[j] && out[j] == po[j] && rs[idx[j]] == Failed(out[j])
      {
        assert init[pi[j]] == rs[pi[j]];
      }
    }
  }

  /** The kept buffers are an order-preserving subsequence of the results
      that holds every success and nothing else. */
  lemma SuccessesAreOrderedSubsequence(rs: seq<ConversionResult>)
    ensures IsSuccessSubsequence(rs, SuccessIndices(rs), Successes(rs))
  {
    SuccessIndicesPick(rs);
    PositionsIncreasing(rs, true);
    PositionsCover(rs, true);
  }

  /** The reported failures are an order-preserving subsequence of the
      results that holds every failure and nothing else. */
  lemma FailuresAreOrderedSubsequence(rs: seq<ConversionResult>)
    ensures IsFailureSubsequence(rs, FailureIndices(rs), Failures(rs))
  {
    FailureIndicesPick(rs);
    PositionsIncreasing(rs, false);
    PositionsCover(rs, false);
  }

  /** Converting the uploads one after the other: the results of a joined
      batch are the results of its parts, joined. */
  lemma ResultsAppend<Img>(
    a: seq<Bytes>,
    b: seq<Bytes>,
    outputFormat: string,
    decode: Bytes -> Option<Decoded<Img>>,
    encode: (Img, string) -> Option<Bytes>
  )
    ensures Results(a + b, outputFormat, decode, encode)
         == Results(a, outputFormat, decode, encode) + Results(b, outputFormat, decode, encode)
  {
  }

  /** A batch converted in two parts keeps the same buffers, in the same
      order, as the batch converted whole. */
  lemma SplitBatchKeepsOrder<Img>(
    a: seq<Bytes>,
    b: seq<Bytes>,
    outputFormat: string,
    decode: Bytes -> Option<Decoded<Img>>,
    encode: (Img, string) -> Option<Bytes>
  )
    ensures Successes(Results(a + b, outputFormat, decode, encode))
         == Successes(Results(a, outputFormat, decode, encode)) + Successes(Results(b, outputFormat, decode, encode))
  {
    ResultsAppend(a, b, outputFormat, decode, encode);
    SuccessesAppend(Results(a, outputFormat, decode, encode), Results(b, outputFormat, decode, encode));
  }

  /** Converting a batch in two parts keeps the same buffers as converting it
      whole: the order of the batch is kept across any split. */
  lemma {:induction false} SuccessesAppend(a: seq<ConversionResult>, b: seq<ConversionResult>)
    ensures Successes(a + b) == Successes(a) + Successes(b)
    decreases |b|
  {
    if b != [] {
      var b' := b[..|b| - 1];
      assert (a + b)[..|a + b| - 1] == a + b';
      SuccessesAppend(a, b');
    } else {
      assert a + b == a;
    }
  }

  /** Every upload is either kept or reported, never both, never neither. */
  lemma {:induction false} EveryResultAccounted(rs: seq<ConversionResult>)
    ensures |Successes(rs)| + |Failures(rs)| == |rs|
  {
    if rs != [] {
      EveryResultAccounted(rs[..|rs| - 1]);
    }
  }

  /** Nothing is kept exactly when every upload failed. */
  lemma NothingKeptIffAllFailed(rs: seq<ConversionResult>)
    ensures Successes(rs) == [] <==> forall i :: 0 <= i < |rs| ==> rs[i].Failed?
  {
    SuccessesAreOrderedSubsequence(rs);
    var idx := SuccessIndices(rs);
    if Successes(rs) != [] {
      assert rs[idx[0]].Converted?;
    }
  }

  /** The conversion loop of `main` followed by the `if buffers:` gate.
      `errors` stands for the messages shown for the failed uploads. */
  method RunBatch<Img>(
    uploads: seq<Bytes>,
    outputFormat: string,
    decode: Bytes -> Option<Decoded<Img>>,
    encode: (Img, string) -> Option<Bytes>
  ) returns (buffers: seq<Bytes>, errors: seq<FailReason>, download: Option<Archive>)
    ensures buffers == Successes(Results(uploads, outputFormat, decode, encode))
    ensures errors == Failures(Results(uploads, outputFormat, decode, encode))
    ensures download.Some? <==> buffers != []
    ensures download.Some? ==> IsArchiveOf(download.value, buffers, outputFormat)
    ensures download.Some? ==> NamesDistinct(download.value)
  {
    ghost var rs := Results(uploads, outputFormat, decode, encode);
    buffers := [];
    errors := [];
    var i := 0;
    while i < |uploads|
      invariant 0 <= i <= |uploads|
      invariant buffers == Successes(rs[..i])
      invariant errors == Failures(rs[..i])
    {
      var outcome := Convert(uploads[i], outputFormat, decode, encode);
      assert rs[..i + 1][..i] == rs[..i];
      assert rs[..i + 1][i] == outcome;
      assert Successes(rs[..i + 1]) == Successes(rs[..i]) + (if outcome.Converted? then [outcome.data] else []);
      assert Failures(rs[..i + 1]) == Failures(rs[..i]) + (if outcome.Failed? then [outcome.reason] else []);
      if outcome.Converted? {
        buffers := buffers + [outcome.data];
      } else {
        errors := errors + [outcome.reason];
      }
      i := i + 1;
    }
    assert rs[..i] == rs;
    if buffers != [] {
      var entries := CreateZip(buffers, outputFormat);
      download := Some(entries);
    } else {
      download := None;
    }
  }

  /** Entry j of an offered archive holds the output of the j-th successful
      upload, which sits at position SuccessIndices(rs)[j] of the batch. */
  lemma ArchiveEntryOrigin(rs: seq<ConversionResult>, entries: Archive, outputFormat: string, j: nat)
    requires IsArchiveOf(entries, Successes(rs), outputFormat)
    requires j < |entries|
    ensures j < |SuccessIndices(rs)| && SuccessIndices(rs)[j] < |rs|
    ensures rs[SuccessIndices(rs)[j]] == Converted(entries[j].data)
    ensures entries[j].name == EntryName(j, outputFormat)
  {
    SuccessesAreOrderedSubsequence(rs);
  }

  /** Three uploads where the second fails: the archive numbers the two
      successes 1 and 2, with no gap for the failure. */
  lemma MixedBatchNumbering(a: Bytes, c: Bytes, e: FailReason, entries: Archive)
    requires IsArchiveOf(entries, Successes([Converted(a), Failed(e), Converted(c)]), "JPEG")
    ensures entries == [Entry("converted_1.jpeg", a), Entry("converted_2.jpeg", c)]
  {
    var rs := [Converted(a), Failed(e), Converted(c)];
    assert rs[..2] == [Converted(a), Failed(e)];
    assert rs[..2][..1] == [Converted(a)];
    assert [Converted(a)][..0] == [];
    assert Successes([Converted(a)]) == [a];
    assert Successes(rs[..2]) == [a];
    assert Successes(rs) == [a, c];
    EntryNameSpelled(0, "JPEG");
    EntryNameSpelled(1, "JPEG");
    JpegEntryNames();
  }

  /** The first two entry names of a JPEG archive, spelled out. */
  lemma JpegEntryNames()
    ensures EntryPrefix + NatToString(1) + "." + Lower("JPEG") == "converted_1.jpeg"
    ensures EntryPrefix + NatToString(2) + "." + Lower("JPEG") == "converted_2.jpeg"
  {
    OutputExtensions();
    assert NatToString(1) == "1";
    assert NatToString(2) == "2";
  }
}
