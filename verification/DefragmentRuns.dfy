/** Fragments over whole runs of the manager: every complete bin is merged to the original content. */
module DefragmentRuns {
  import opened Words
  import opened Options
  import opened FlowFiles
  import opened Numerals
  import opened BinModel
  import opened BinRuns
  import opened BinOrder
  import opened BinCounts
  import opened MergeContent
  import opened MergeProcessor

  /** The content cut into pieces, and what its fragments say. */
  datatype Whole = Whole(key: string, id: string, count: string, pieces: seq<seq<Byte>>)

  /** A fragment of the whole, with its own piece. */
  ghost predicate IsPiece(x: Whole, f: FlowFile) {
    && StoI(x.count) == Some(|x.pieces|) && Belongs(f, x.id, x.count, |x.pieces|)
    && f.content == x.pieces[Index(f).value] && f.size == |f.content|
  }

  ghost predicate StepPieces(x: Whole, s: Step) {
    s.OfferStep? && s.key == x.key ==> IsPiece(x, s.file)
  }

  ghost predicate AllPieces(x: Whole, files: seq<FlowFile>) {
    forall k :: 0 <= k < |files| ==> IsPiece(x, files[k])
  }

  lemma BagCons(f: FlowFile, files: seq<FlowFile>)
    ensures multiset([f] + files) == multiset{f} + multiset(files)
  {
  }

  lemma BothCons(f: FlowFile, a: seq<FlowFile>, b: seq<FlowFile>, all: seq<FlowFile>)
    requires multiset(a) + multiset(b) == multiset(all)
    ensures multiset([f] + a) + multiset(b) == multiset([f] + all)
    ensures multiset(a) + multiset([f] + b) == multiset([f] + all)
  {
    BagCons(f, a);
    BagCons(f, b);
    BagCons(f, all);
  }

  lemma PickCons(f: FlowFile, rest: seq<FlowFile>, max: Size, big: bool)
    ensures Pick([f] + rest, max, big) ==
            if (f.size > max) == big then [f] + Pick(rest, max, big) else Pick(rest, max, big)
  {
    assert ([f] + rest)[1..] == rest && [] + Pick(rest, max, big) == Pick(rest, max, big);
  }

  /** Files above and within the size limit together are all files. */
  lemma {:induction false} PickBoth(files: seq<FlowFile>, max: Size)
    ensures multiset(Pick(files, max, false)) + multiset(Pick(files, max, true)) == multiset(files)
    decreases |files|
  {
    if files != [] {
      var f, rest := files[0], files[1..];
      assert files == [f] + rest;
      hide Pick;
      PickBoth(rest, max);
      PickCons(f, rest, max, false);
      PickCons(f, rest, max, true);
      BothCons(f, Pick(rest, max, false), Pick(rest, max, true), rest);
    }
  }

  /** Nothing but accepted offers has left: as bags, what left and what waits is what was accepted. */
  lemma OrderedBag(w: World, key: string)
    requires InOrder(w, key)
    ensures multiset(Out(w, key)) + multiset(Waiting(w.m, key)) == multiset(OffersOf(w.accepted, key))
  {
    hide Out, Waiting, OffersOf;
    var out, waiting, offers, max := Out(w, key), Waiting(w.m, key), OffersOf(w.accepted, key), w.m.maxSize;
    PickBoth(out, max);
    PickBoth(offers, max);
    assert multiset(Pick(out, max, false) + waiting) == multiset(Pick(out, max, false)) + multiset(waiting);
    hide Pick;
  }

  lemma {:induction false} BinInFiles(bins: seq<Bin>, key: string, k: int)
    requires 0 <= k < |bins| && bins[k].group == key
    ensures multiset(bins[k].files) <= multiset(Files(OfGroup(bins, key)))
    decreases |bins|
  {
    var head := if bins[0].group == key then [bins[0]] else [];
    FilesConcat(head, OfGroup(bins[1..], key));
    var rest := Files(OfGroup(bins[1..], key));
    assert multiset(Files(head) + rest) == multiset(Files(head)) + multiset(rest);
    if k == 0 {
      assert Files(head) == bins[0].files + [] == bins[0].files;
    } else {
      BinInFiles(bins[1..], key, k - 1);
    }
  }

  /** A bag of distinct fragments has no smaller bag with two of the same index. */
  lemma DistinctInBag(files: seq<FlowFile>, all: seq<FlowFile>)
    requires Indexed(files) && Indexed(all) && DistinctIndices(all) && multiset(files) <= multiset(all)
    ensures DistinctIndices(files)
  {
    forall i, j | 0 <= i < j < |files| ensures Index(files[i]).value != Index(files[j]).value {
      assert files[i] in multiset(files) && files[j] in multiset(files);
      if Index(files[i]).value == Index(files[j]).value {
        SameIndexOnce(all, files[i], files[j]);
        TwoCopies(files, i, j);
        OneCopy(all, files[i]);
      }
    }
  }

  lemma {:induction false} AcceptedPieces(x: Whole, w: World, steps: seq<Step>)
    requires AllPieces(x, OffersOf(w.accepted, x.key)) && forall k :: 0 <= k < |steps| ==> StepPieces(x, steps[k])
    ensures AllPieces(x, OffersOf(Run(w, steps).accepted, x.key))
    decreases |steps|
  {
    hide IsPiece, Offer, OffersOf, Gather, RemoveOldest;
    if steps != [] {
      var n := |steps| - 1;
      AcceptedPieces(x, w, steps[..n]);
      var z, s := Run(w, steps[..n]), steps[n];
      assert Run(w, steps) == Next(z, s);
      hide Run;
      if s.OfferStep? {
        OffersAppend(z.accepted, s.key, s.file, x.key);
      }
    }
  }

  /** A manager in defragmentation mode before its first operation. */
  ghost predicate Untouched(w: World) {
    && w.m.groups == [] && w.m.ready == [] && w.m.count == 0 && w.delivered == [] && w.accepted == []
    && w.m.countAttribute == FRAGMENT_COUNT
  }

  /** All offers under the key are fragments of the whole. */
  ghost predicate OnlyPieces(x: Whole, steps: seq<Step>) {
    x.pieces != [] && StoI(x.count) == Some(|x.pieces|) && forall i :: 0 <= i < |steps| ==> StepPieces(x, steps[i])
  }

  /** A delivered bin of the key holds accepted fragments only, each once, and no more than there are. */
  lemma DeliveredPieces(x: Whole, w: World, steps: seq<Step>, k: int)
    requires Untouched(w) && NoPurge(steps) && OnlyPieces(x, steps)
    requires 0 <= k < |Run(w, steps).delivered| && Run(w, steps).delivered[k].group == x.key
    ensures var z := Run(w, steps);
            var files := z.delivered[k].files;
            && multiset(files) <= multiset(OffersOf(z.accepted, x.key))
            && AllPieces(x, OffersOf(z.accepted, x.key)) && |files| <= |x.pieces|
  {
    var z := Run(w, steps);
    var all, b := z.delivered + z.m.ready, z.delivered[k];
    RunKeepsOrder(w, steps, x.key);
    OrderedBag(z, x.key);
    AcceptedPieces(x, w, steps);
    assert all[k] == b;
    BinInFiles(all, x.key, k);
    hide InOrder, OffersOf, Run, NoPurge, IsPiece, Waiting;
    PiecesCounted(x, w, steps, k);
    if |b.files| == 1 {
      assert b.files[0] in multiset(b.files);
    }
  }

  lemma PiecesCounted(x: Whole, w: World, steps: seq<Step>, k: int)
    requires Untouched(w) && OnlyPieces(x, steps)
    requires 0 <= k < |Run(w, steps).delivered| && Run(w, steps).delivered[k].group == x.key
    ensures var files := Run(w, steps).delivered[k].files; |files| <= |x.pieces| || |files| == 1
  {
    var n: Int := StoI(x.count).value;
    var c := Count(x.key, FRAGMENT_COUNT, w.m.maxSize, n);
    forall i | 0 <= i < |steps| ensures StepCounts(c, steps[i]) {
      assert StepPieces(x, steps[i]);
    }
    RunCounted(c, w, steps);
    hide Run, StoI;
    assert Counted(c, Run(w, steps).delivered[k]);
  }

  lemma PiecesFragments(x: Whole, files: seq<FlowFile>)
    requires x.pieces != [] && StoI(x.count) == Some(|x.pieces|) && AllPieces(x, files) && files != []
    ensures Fragments(files, x.id, x.count) && Indexed(files) && CarryPieces(files, x.pieces) && Sized(files)
  {
    hide StoI;
    forall i | 0 <= i < |files|
      ensures Belongs(files[i], x.id, x.count, |x.pieces|) && Index(files[i]).Some?
      ensures files[i].size == |files[i].content|
      ensures 0 <= Index(files[i]).value < |x.pieces| && files[i].content == x.pieces[Index(files[i]).value]
    {
      assert IsPiece(x, files[i]);
    }
  }

  /** Over every run without purge from an untouched manager in defragmentation mode, when all files offered under a key
      are fragments of one content and no index is accepted twice: a delivered bin of that key never holds more files
      than there are fragments, and when it holds that many what goes out for it first is the original content, whatever
      the order of offers, gatherings, evictions and deliveries. */
  lemma RunRestores(x: Whole, w: World, steps: seq<Step>, k: int, c: Config, archive: Archiver, sent: seq<Transfer>)
    requires Untouched(w) && NoPurge(steps) && OnlyPieces(x, steps)
    requires var offers := OffersOf(Run(w, steps).accepted, x.key); Indexed(offers) && DistinctIndices(offers)
    requires 0 <= k < |Run(w, steps).delivered| && Run(w, steps).delivered[k].group == x.key
    requires c.page > 0 && c.strategy == DEFRAGMENT && c.format == CONCAT
    requires c.header == [] && c.footer == [] && c.demarcator == []
    requires Routed(c, Run(w, steps).delivered[k].files, archive, sent)
    ensures var files := Run(w, steps).delivered[k].files;
            && |files| <= |x.pieces|
            && (|files| == |x.pieces| ==> sent != [] && sent[0] == MergedContent(Flatten(x.pieces), |files|))
  {
    var files, offers := Run(w, steps).delivered[k].files, OffersOf(Run(w, steps).accepted, x.key);
    hide Run, OffersOf, Untouched, NoPurge, Routed, DistinctIndices, Flatten;
    DeliveredPieces(x, w, steps, k);
    if |files| == |x.pieces| {
      PiecesInBag(x, files, offers);
      PiecesFragments(x, files);
      DistinctInBag(files, offers);
      DefragmentRestores(c, files, archive, sent, x.pieces, x.id, x.count);
    }
  }

  /** Some fragment of the content, with count and index in decimal. */
  ghost predicate IsWritten(id: string, pieces: seq<seq<Byte>>, f: FlowFile) {
    exists i :: 0 <= i < |pieces| && WrittenFragment(f, id, |pieces|, i) && f.content == pieces[i]
                && f.size == |pieces[i]|
  }

  ghost predicate StepWritten(key: string, id: string, pieces: seq<seq<Byte>>, s: Step) {
    s.OfferStep? && s.key == key ==> IsWritten(id, pieces, s.file)
  }

  ghost predicate AllWritten(id: string, pieces: seq<seq<Byte>>, files: seq<FlowFile>) {
    forall k :: 0 <= k < |files| ==> IsWritten(id, pieces, files[k])
  }

  /** No two files say the same index. */
  ghost predicate DistinctTexts(files: seq<FlowFile>) {
    forall i, j :: 0 <= i < j < |files| ==>
      Attribute(files[i], FRAGMENT_INDEX) != Attribute(files[j], FRAGMENT_INDEX)
  }

  lemma WrittenPieces(x: Whole, s: Step)
    requires StepWritten(x.key, x.id, x.pieces, s) && x.count == Decimal(|x.pieces|) && 0 < |x.pieces| <= INT_MAX
    ensures StepPieces(x, s)
  {
    if s.OfferStep? && s.key == x.key {
      var i :| 0 <= i < |x.pieces| && WrittenFragment(s.file, x.id, |x.pieces|, i) && s.file.content == x.pieces[i]
        && s.file.size == |x.pieces[i]|;
      WrittenIndex(s.file, x.id, |x.pieces|, i);
      hide StoI, Decimal;
    }
  }

  lemma {:induction false} AcceptedWritten(key: string, id: string, pieces: seq<seq<Byte>>, w: World, steps: seq<Step>)
    requires AllWritten(id, pieces, OffersOf(w.accepted, key))
    requires forall k :: 0 <= k < |steps| ==> StepWritten(key, id, pieces, steps[k])
    ensures AllWritten(id, pieces, OffersOf(Run(w, steps).accepted, key))
    decreases |steps|
  {
    hide IsWritten, Offer, OffersOf, Gather, RemoveOldest;
    if steps != [] {
      var n := |steps| - 1;
      AcceptedWritten(key, id, pieces, w, steps[..n]);
      var z, s := Run(w, steps[..n]), steps[n];
      assert Run(w, steps) == Next(z, s);
      hide Run;
      if s.OfferStep? {
        OffersAppend(z.accepted, s.key, s.file, key);
      }
    }
  }

  lemma TextsDistinct(id: string, pieces: seq<seq<Byte>>, files: seq<FlowFile>)
    requires DistinctTexts(files) && 0 < |pieces| <= INT_MAX && AllWritten(id, pieces, files)
    ensures Indexed(files) && DistinctIndices(files)
  {
    forall k | 0 <= k < |files|
      ensures Index(files[k]).Some? && Index(files[k]).value >= 0
      ensures Attribute(files[k], FRAGMENT_INDEX) == Some(Decimal(Index(files[k]).value))
    {
      assert IsWritten(id, pieces, files[k]);
      var i :| 0 <= i < |pieces| && WrittenFragment(files[k], id, |pieces|, i) && files[k].content == pieces[i]
        && files[k].size == |pieces[i]|;
      WrittenIndex(files[k], id, |pieces|, i);
    }
    hide Index, Decimal;
  }

  /** The same for fragments as a splitter writes them: when all files offered under a key say, in decimal, the number
      of pieces and the index of the piece they hold, and no index is accepted twice, every delivered bin of the key
      that holds as many files as there are pieces is merged to the original content. */
  lemma RunRestoresWritten(key: string, id: string, pieces: seq<seq<Byte>>, w: World, steps: seq<Step>, k: int,
                           c: Config, archive: Archiver, sent: seq<Transfer>)
    requires 0 < |pieces| <= INT_MAX && Untouched(w) && NoPurge(steps)
    requires forall i :: 0 <= i < |steps| ==> StepWritten(key, id, pieces, steps[i])
    requires DistinctTexts(OffersOf(Run(w, steps).accepted, key))
    requires 0 <= k < |Run(w, steps).delivered| && Run(w, steps).delivered[k].group == key
    requires c.page > 0 && c.strategy == DEFRAGMENT && c.format == CONCAT
    requires c.header == [] && c.footer == [] && c.demarcator == []
    requires Routed(c, Run(w, steps).delivered[k].files, archive, sent)
    ensures var files := Run(w, steps).delivered[k].files;
            && |files| <= |pieces|
            && (|files| == |pieces| ==> sent != [] && sent[0] == MergedContent(Flatten(pieces), |files|))
  {
    var x := Whole(key, id, Decimal(|pieces|), pieces);
    AcceptedWritten(key, id, pieces, w, steps);
    TextsDistinct(id, pieces, OffersOf(Run(w, steps).accepted, key));
    ReadsWritten(|pieces|, "", "");
    forall i | 0 <= i < |steps| ensures StepPieces(x, steps[i]) {
      WrittenPieces(x, steps[i]);
    }
    hide Run, OffersOf, Untouched, NoPurge, Routed, DistinctIndices, Flatten, StoI, Decimal, StepPieces;
    RunRestores(x, w, steps, k, c, archive, sent);
  }

  lemma PiecesInBag(x: Whole, files: seq<FlowFile>, offers: seq<FlowFile>)
    requires AllPieces(x, offers) && multiset(files) <= multiset(offers)
    ensures AllPieces(x, files)
  {
    hide IsPiece;
    forall i | 0 <= i < |files| ensures IsPiece(x, files[i]) {
      assert files[i] in multiset(files);
      assert files[i] in offers;
    }
  }
}
