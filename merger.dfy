/**
 * The small-chunk merger (mergeSmallChunks, ast-chunking.ts:218-267).
 *
 * The merger walks the chunks once, holding at most one pending "buffer".
 * Its result is described here by the groups of consecutive input chunks
 * that end up as one output chunk each: `Groups` cuts the input into those
 * groups exactly as the loop does, `Combine` folds one group the way the
 * buffer absorbs chunks, and `MergedChunks` is the specification the
 * imperative `MergeSmallChunks` is proved against.
 */
module Merger {
  import opened Base
  import opened Chunks

  /** A chunk the merger may buffer or absorb: non-semantic and shorter than
      minChunkSize. */
  predicate Eligible(c: Chunk, minChunkSize: int) {
    !IsSemantic(c) && |c.content| < minChunkSize
  }

  /** The buffer after absorbing `next`. */
  function MergePair(buffer: Chunk, next: Chunk): Chunk {
    Chunk(
      buffer.content + "\n\n" + next.content,
      buffer.chunkType + "+" + next.chunkType,
      buffer.startLine,
      next.endLine,
      buffer.metadata["merged" := Bool(true)])
  }

  /** The chunk a run of consecutive chunks becomes, absorbed left to right. */
  function Combine(run: seq<Chunk>): Chunk
    requires |run| > 0
    decreases |run|
  {
    if |run| == 1 then run[0] else MergePair(Combine(run[..|run| - 1]), run[|run| - 1])
  }

  /** A run the merger may have built: every member is eligible and the buffer
      was still shorter than minChunkSize before each absorption. */
  ghost predicate MergeableRun(run: seq<Chunk>, minChunkSize: int) {
    && (forall k :: 0 <= k < |run| ==> Eligible(run[k], minChunkSize))
    && (forall k :: 1 <= k < |run| ==> |Combine(run[..k]).content| < minChunkSize)
  }

  /** The output groups, given the chunks still to be read and the chunks
      already held in the buffer (`[]` when there is no buffer). */
  function Groups(rest: seq<Chunk>, minChunkSize: int, run: seq<Chunk>): (gs: seq<seq<Chunk>>)
    ensures NonEmpty(gs)
    decreases |rest|
  {
    if |rest| == 0 then (if run == [] then [] else [run])
    else
      var c := rest[0];
      if run == [] then
        if Eligible(c, minChunkSize) then Groups(rest[1..], minChunkSize, [c])
        else [[c]] + Groups(rest[1..], minChunkSize, [])
      else if Eligible(c, minChunkSize) && Eligible(Combine(run), minChunkSize) then
        Groups(rest[1..], minChunkSize, run + [c])
      else if Eligible(c, minChunkSize) then
        [run] + Groups(rest[1..], minChunkSize, [c])
      else
        [run] + ([[c]] + Groups(rest[1..], minChunkSize, []))
  }

  predicate NonEmpty(gs: seq<seq<Chunk>>) {
    forall j :: 0 <= j < |gs| ==> |gs[j]| > 0
  }

  function CombineAll(gs: seq<seq<Chunk>>): (r: seq<Chunk>)
    requires NonEmpty(gs)
  {
    seq(|gs|, j requires 0 <= j < |gs| => Combine(gs[j]))
  }

  /** The merger's result (the specification of MergeSmallChunks). */
  function MergedChunks(chunks: seq<Chunk>, minChunkSize: int): seq<Chunk> {
    if |chunks| == 0 then [] else CombineAll(Groups(chunks, minChunkSize, []))
  }

  function Flatten(gs: seq<seq<Chunk>>): seq<Chunk> {
    if |gs| == 0 then [] else gs[0] + Flatten(gs[1..])
  }

  // ---------------------------------------------------------------------
  // The imperative merger
  // ---------------------------------------------------------------------

  /** The loop's state: the chunks already emitted and the pending buffer. */
  datatype MergeState = MergeState(merged: seq<Chunk>, buffer: Option<Chunk>)

  /** One iteration of the loop on `chunk`. */
  function Step(s: MergeState, chunk: Chunk, minChunkSize: int): MergeState {
    if s.buffer.None? then
      if !Eligible(chunk, minChunkSize) then MergeState(s.merged + [chunk], None)
      else MergeState(s.merged, Some(chunk))
    else if Eligible(chunk, minChunkSize) && Eligible(s.buffer.value, minChunkSize) then
      MergeState(s.merged, Some(MergePair(s.buffer.value, chunk)))
    else if Eligible(chunk, minChunkSize) then
      MergeState(s.merged + [s.buffer.value], Some(chunk))
    else
      MergeState(s.merged + [s.buffer.value] + [chunk], None)
  }

  /** The loop run from state `s` over `rest`. */
  function Run(s: MergeState, rest: seq<Chunk>, minChunkSize: int): MergeState
    decreases |rest|
  {
    if |rest| == 0 then s else Run(Step(s, rest[0], minChunkSize), rest[1..], minChunkSize)
  }

  /** The final flush of a non-empty buffer. */
  function Flush(s: MergeState): seq<Chunk> {
    if s.buffer.Some? then s.merged + [s.buffer.value] else s.merged
  }

  lemma CombineAllSnoc(gs: seq<seq<Chunk>>, g: seq<Chunk>)
    requires NonEmpty(gs)
    requires |g| > 0
    ensures NonEmpty(gs + [g])
    ensures CombineAll(gs + [g]) == CombineAll(gs) + [Combine(g)]
  {
  }

  lemma CombineSnoc(run: seq<Chunk>, c: Chunk)
    requires |run| > 0
    ensures Combine(run + [c]) == MergePair(Combine(run), c)
  {
    assert (run + [c])[..|run|] == run;
  }

  function BufferOf(run: seq<Chunk>): Option<Chunk> {
    if run == [] then None else Some(Combine(run))
  }

  /** The groups finished so far and the run held in the buffer. */
  datatype GroupState = GroupState(done: seq<seq<Chunk>>, run: seq<Chunk>)

  /** How one more chunk moves the finished groups and the buffered run. */
  function GroupStep(g: GroupState, c: Chunk, minChunkSize: int): GroupState {
    if g.run == [] then
      if Eligible(c, minChunkSize) then GroupState(g.done, [c]) else GroupState(g.done + [[c]], [])
    else if Eligible(c, minChunkSize) && Eligible(Combine(g.run), minChunkSize) then
      GroupState(g.done, g.run + [c])
    else if Eligible(c, minChunkSize) then
      GroupState(g.done + [g.run], [c])
    else
      GroupState(g.done + [g.run] + [[c]], [])
  }

  lemma GroupStepUnfolds(g: GroupState, rest: seq<Chunk>, minChunkSize: int)
    requires |rest| > 0
    ensures GroupStep(g, rest[0], minChunkSize).done + Groups(rest[1..], minChunkSize, GroupStep(g, rest[0], minChunkSize).run)
            == g.done + Groups(rest, minChunkSize, g.run)
  {
    var c := rest[0];
    var tail := rest[1..];
    if g.run != [] && !Eligible(c, minChunkSize) {
      assert g.done + [g.run] + [[c]] + Groups(tail, minChunkSize, []) == g.done + ([g.run] + ([[c]] + Groups(tail, minChunkSize, [])));
    }
  }

  lemma StepAbstracts(g: GroupState, c: Chunk, minChunkSize: int)
    requires NonEmpty(g.done)
    ensures NonEmpty(GroupStep(g, c, minChunkSize).done)
    ensures Step(MergeState(CombineAll(g.done), BufferOf(g.run)), c, minChunkSize)
            == MergeState(CombineAll(GroupStep(g, c, minChunkSize).done), BufferOf(GroupStep(g, c, minChunkSize).run))
  {
    if g.run == [] {
      if !Eligible(c, minChunkSize) {
        CombineAllSnoc(g.done, [c]);
      }
    } else if Eligible(c, minChunkSize) && Eligible(Combine(g.run), minChunkSize) {
      CombineSnoc(g.run, c);
    } else if Eligible(c, minChunkSize) {
      CombineAllSnoc(g.done, g.run);
    } else {
      CombineAllSnoc(g.done, g.run);
      CombineAllSnoc(g.done + [g.run], [c]);
    }
  }

  /** The loop computes the groups: from a state whose emitted chunks are the
      combined groups `done` and whose buffer holds the combined `run`, the
      loop and the final flush emit the combination of `done` followed by the
      groups of the remaining input. */
  lemma {:induction false} RunComputesGroups(g: GroupState, rest: seq<Chunk>, minChunkSize: int)
    requires NonEmpty(g.done)
    ensures NonEmpty(g.done + Groups(rest, minChunkSize, g.run))
    ensures Flush(Run(MergeState(CombineAll(g.done), BufferOf(g.run)), rest, minChunkSize))
            == CombineAll(g.done + Groups(rest, minChunkSize, g.run))
    decreases |rest|
  {
    if |rest| == 0 {
      if g.run != [] {
        CombineAllSnoc(g.done, g.run);
      } else {
        assert g.done + [] == g.done;
      }
    } else {
      var g' := GroupStep(g, rest[0], minChunkSize);
      StepAbstracts(g, rest[0], minChunkSize);
      GroupStepUnfolds(g, rest, minChunkSize);
      RunComputesGroups(g', rest[1..], minChunkSize);
    }
  }

  method MergeSmallChunks(chunks: seq<Chunk>, minChunkSize: int) returns (merged: seq<Chunk>)
    ensures merged == MergedChunks(chunks, minChunkSize)
  {
    if |chunks| == 0 {
      return [];
    }
    merged := [];
    var buffer: Option<Chunk> := None;
    for i := 0 to |chunks|
      invariant Run(MergeState(merged, buffer), chunks[i..], minChunkSize)
                == Run(MergeState([], None), chunks, minChunkSize)
    {
      var chunk := chunks[i];
      assert chunks[i..][0] == chunk && chunks[i..][1..] == chunks[i + 1..];
      var isSemanticChunk := !Truthy(Lookup(chunk.metadata, "split"));

      if buffer.None? {
        if isSemanticChunk || |chunk.content| >= minChunkSize {
          merged := merged + [chunk];
        } else {
          buffer := Some(chunk);
        }
        continue;
      }

      var isBufferSemantic := !Truthy(Lookup(buffer.value.metadata, "split"));
      if !isSemanticChunk && !isBufferSemantic
         && |buffer.value.content| < minChunkSize && |chunk.content| < minChunkSize
      {
        buffer := Some(Chunk(
          buffer.value.content + "\n\n" + chunk.content,
          buffer.value.chunkType + "+" + chunk.chunkType,
          buffer.value.startLine,
          chunk.endLine,
          buffer.value.metadata["merged" := Bool(true)]));
      } else {
        merged := merged + [buffer.value];
        if isSemanticChunk || |chunk.content| >= minChunkSize {
          merged := merged + [chunk];
          buffer := None;
        } else {
          buffer := Some(chunk);
        }
      }
    }
    if buffer.Some? {
      merged := merged + [buffer.value];
    }
    assert chunks[|chunks|..] == [];
    RunComputesGroups(GroupState([], []), chunks, minChunkSize);
    assert CombineAll([]) == [];
    assert [] + Groups(chunks, minChunkSize, []) == Groups(chunks, minChunkSize, []);
  }

  // ---------------------------------------------------------------------
  // Properties of the merger
  // ---------------------------------------------------------------------

  lemma {:induction false} FlattenAppendOne(gs: seq<seq<Chunk>>, g: seq<Chunk>)
    ensures Flatten([g] + gs) == g + Flatten(gs)
  {
    assert ([g] + gs)[1..] == gs;
  }

  /** Groups cut the input and the buffer into consecutive pieces: nothing is
      dropped, duplicated or reordered. */
  lemma {:induction false} GroupsFlatten(rest: seq<Chunk>, minChunkSize: int, run: seq<Chunk>)
    ensures Flatten(Groups(rest, minChunkSize, run)) == run + rest
    decreases |rest|
  {
    if |rest| == 0 {
      if run != [] {
        FlattenAppendOne([], run);
      }
    } else {
      var c := rest[0];
      var tail := rest[1..];
      assert rest == [c] + tail;
      if run == [] {
        if Eligible(c, minChunkSize) {
          GroupsFlatten(tail, minChunkSize, [c]);
        } else {
          GroupsFlatten(tail, minChunkSize, []);
          FlattenAppendOne(Groups(tail, minChunkSize, []), [c]);
        }
      } else if Eligible(c, minChunkSize) && Eligible(Combine(run), minChunkSize) {
        GroupsFlatten(tail, minChunkSize, run + [c]);
      } else if Eligible(c, minChunkSize) {
        GroupsFlatten(tail, minChunkSize, [c]);
        FlattenAppendOne(Groups(tail, minChunkSize, [c]), run);
      } else {
        GroupsFlatten(tail, minChunkSize, []);
        FlattenAppendOne(Groups(tail, minChunkSize, []), [c]);
        FlattenAppendOne([[c]] + Groups(tail, minChunkSize, []), run);
      }
    }
  }

  /** Every group of two or more chunks is a run the merger may build. */
  lemma {:induction false} GroupsMergeable(rest: seq<Chunk>, minChunkSize: int, run: seq<Chunk>)
    requires run != [] ==> MergeableRun(run, minChunkSize)
    ensures forall j :: 0 <= j < |Groups(rest, minChunkSize, run)| && |Groups(rest, minChunkSize, run)[j]| >= 2
              ==> MergeableRun(Groups(rest, minChunkSize, run)[j], minChunkSize)
    decreases |rest|
  {
    if |rest| > 0 {
      var c := rest[0];
      var tail := rest[1..];
      if run == [] {
        if Eligible(c, minChunkSize) {
          GroupsMergeable(tail, minChunkSize, [c]);
        } else {
          GroupsMergeable(tail, minChunkSize, []);
        }
      } else if Eligible(c, minChunkSize) && Eligible(Combine(run), minChunkSize) {
        var run' := run + [c];
        forall k | 1 <= k < |run'| ensures |Combine(run'[..k]).content| < minChunkSize {
          if k < |run| {
            assert run'[..k] == run[..k];
          } else {
            assert run'[..k] == run;
          }
        }
        GroupsMergeable(tail, minChunkSize, run');
      } else if Eligible(c, minChunkSize) {
        GroupsMergeable(tail, minChunkSize, [c]);
      } else {
        GroupsMergeable(tail, minChunkSize, []);
      }
    }
  }

  /** mergeSmallChunks, described by its groups: the input is cut into
      consecutive groups, the output has one chunk per group, a group of one
      is passed through unchanged, and a group of two or more consists of
      non-semantic chunks each shorter than minChunkSize, absorbed while the
      buffer was still shorter than minChunkSize. */
  lemma MergePartition(chunks: seq<Chunk>, minChunkSize: int)
    ensures |chunks| == 0 ==> MergedChunks(chunks, minChunkSize) == []
    ensures |chunks| > 0 ==>
      var gs := Groups(chunks, minChunkSize, []);
      && Flatten(gs) == chunks
      && |MergedChunks(chunks, minChunkSize)| == |gs|
      && (forall j :: 0 <= j < |gs| ==> MergedChunks(chunks, minChunkSize)[j] == Combine(gs[j]))
      && (forall j :: 0 <= j < |gs| && |gs[j]| == 1 ==> MergedChunks(chunks, minChunkSize)[j] == gs[j][0])
      && (forall j :: 0 <= j < |gs| && |gs[j]| >= 2 ==> MergeableRun(gs[j], minChunkSize))
  {
    if |chunks| > 0 {
      GroupsFlatten(chunks, minChunkSize, []);
      GroupsMergeable(chunks, minChunkSize, []);
    }
  }

  /** An input chunk that is not eligible forms a group on its own. */
  lemma {:induction false} IneligibleAlone(rest: seq<Chunk>, minChunkSize: int, run: seq<Chunk>, k: nat)
    requires k < |rest| && !Eligible(rest[k], minChunkSize)
    ensures [rest[k]] in Groups(rest, minChunkSize, run)
    decreases |rest|
  {
    var c := rest[0];
    var tail := rest[1..];
    if k == 0 {
      assert !Eligible(c, minChunkSize);
      if run == [] {
        assert Groups(rest, minChunkSize, run) == [[c]] + Groups(tail, minChunkSize, []);
      } else {
        assert Groups(rest, minChunkSize, run) == [run] + ([[c]] + Groups(tail, minChunkSize, []));
      }
    } else {
      assert tail[k - 1] == rest[k];
      if run == [] {
        if Eligible(c, minChunkSize) {
          IneligibleAlone(tail, minChunkSize, [c], k - 1);
        } else {
          IneligibleAlone(tail, minChunkSize, [], k - 1);
        }
      } else if Eligible(c, minChunkSize) && Eligible(Combine(run), minChunkSize) {
        IneligibleAlone(tail, minChunkSize, run + [c], k - 1);
      } else if Eligible(c, minChunkSize) {
        IneligibleAlone(tail, minChunkSize, [c], k - 1);
      } else {
        IneligibleAlone(tail, minChunkSize, [], k - 1);
      }
    }
  }

  /** A semantic chunk, or one of at least minChunkSize characters, is never
      merged: it appears in the output exactly as it was given. */
  lemma NeverMerged(chunks: seq<Chunk>, minChunkSize: int, k: nat)
    requires k < |chunks|
    requires IsSemantic(chunks[k]) || |chunks[k].content| >= minChunkSize
    ensures chunks[k] in MergedChunks(chunks, minChunkSize)
  {
    IneligibleAlone(chunks, minChunkSize, [], k);
    var gs := Groups(chunks, minChunkSize, []);
    var j :| 0 <= j < |gs| && gs[j] == [chunks[k]];
    assert MergedChunks(chunks, minChunkSize)[j] == Combine(gs[j]);
  }

  /** The first chunk of the first group. */
  lemma {:induction false} GroupsHead(rest: seq<Chunk>, minChunkSize: int, run: seq<Chunk>)
    requires |run| + |rest| > 0
    ensures |Groups(rest, minChunkSize, run)| > 0
    ensures Groups(rest, minChunkSize, run)[0][0] == if run != [] then run[0] else rest[0]
    decreases |rest|
  {
    if |rest| > 0 {
      var c := rest[0];
      var tail := rest[1..];
      if run == [] {
        if Eligible(c, minChunkSize) {
          GroupsHead(tail, minChunkSize, [c]);
        }
      } else if Eligible(c, minChunkSize) && Eligible(Combine(run), minChunkSize) {
        GroupsHead(tail, minChunkSize, run + [c]);
      }
    }
  }

  /** The merger is greedy: a group is closed only when its combined chunk or
      the next chunk cannot be absorbed. */
  lemma {:induction false} GroupsMaximal(rest: seq<Chunk>, minChunkSize: int, run: seq<Chunk>)
    ensures forall j :: 0 <= j < |Groups(rest, minChunkSize, run)| - 1 ==>
              !(Eligible(Combine(Groups(rest, minChunkSize, run)[j]), minChunkSize)
                && Eligible(Groups(rest, minChunkSize, run)[j + 1][0], minChunkSize))
    decreases |rest|
  {
    if |rest| > 0 {
      var c := rest[0];
      var tail := rest[1..];
      var gs := Groups(rest, minChunkSize, run);
      if run == [] {
        if Eligible(c, minChunkSize) {
          GroupsMaximal(tail, minChunkSize, [c]);
        } else {
          var g' := Groups(tail, minChunkSize, []);
          GroupsMaximal(tail, minChunkSize, []);
          assert gs == [[c]] + g';
          forall j | 0 <= j < |gs| - 1
            ensures !(Eligible(Combine(gs[j]), minChunkSize) && Eligible(gs[j + 1][0], minChunkSize))
          {
            if j > 0 { assert gs[j] == g'[j - 1] && gs[j + 1] == g'[j]; }
          }
        }
      } else if Eligible(c, minChunkSize) && Eligible(Combine(run), minChunkSize) {
        GroupsMaximal(tail, minChunkSize, run + [c]);
      } else if Eligible(c, minChunkSize) {
        var g' := Groups(tail, minChunkSize, [c]);
        GroupsMaximal(tail, minChunkSize, [c]);
        GroupsHead(tail, minChunkSize, [c]);
        assert gs == [run] + g';
        forall j | 0 <= j < |gs| - 1
          ensures !(Eligible(Combine(gs[j]), minChunkSize) && Eligible(gs[j + 1][0], minChunkSize))
        {
          if j > 0 { assert gs[j] == g'[j - 1] && gs[j + 1] == g'[j]; }
        }
      } else {
        var g' := Groups(tail, minChunkSize, []);
        GroupsMaximal(tail, minChunkSize, []);
        assert gs == [run, [c]] + g';
        forall j | 0 <= j < |gs| - 1
          ensures !(Eligible(Combine(gs[j]), minChunkSize) && Eligible(gs[j + 1][0], minChunkSize))
        {
          if j > 1 { assert gs[j] == g'[j - 2] && gs[j + 1] == g'[j - 1]; }
        }
      }
    }
  }

  function Contents(cs: seq<Chunk>): seq<string> {
    seq(|cs|, i requires 0 <= i < |cs| => cs[i].content)
  }

  function Types(cs: seq<Chunk>): seq<string> {
    seq(|cs|, i requires 0 <= i < |cs| => cs[i].chunkType)
  }

  /** What a merged chunk is made of: the contents joined with a blank line,
      the types joined with "+", the first chunk's start line, the last
      chunk's end line, and the first chunk's metadata with `merged` set once
      anything was absorbed. */
  lemma {:induction false} CombineShape(run: seq<Chunk>)
    requires |run| > 0
    ensures Combine(run).content == Join(Contents(run), "\n\n")
    ensures Combine(run).chunkType == Join(Types(run), "+")
    ensures Combine(run).startLine == run[0].startLine
    ensures Combine(run).endLine == run[|run| - 1].endLine
    ensures Combine(run).metadata == if |run| == 1 then run[0].metadata else run[0].metadata["merged" := Bool(true)]
    ensures IsSemantic(Combine(run)) == IsSemantic(run[0])
    decreases |run|
  {
    if |run| > 1 {
      var init := run[..|run| - 1];
      var last := run[|run| - 1];
      CombineShape(init);
      assert Contents(run) == Contents(init) + [last.content];
      assert Types(run) == Types(init) + [last.chunkType];
      JoinSnoc(Contents(init), last.content, "\n\n");
      JoinSnoc(Types(init), last.chunkType, "+");
    }
  }
}
