/**
 * The FIFO page-replacement routine as the program runs it: a flag per page
 * saying whether it is in memory, an array mapping each frame (slot 0 unused)
 * to the page it holds, a result array with one entry per access, and a
 * cursor naming the frame the next fault fills.
 */
module VirtualMemory {
  import opened FifoSpec

  /** The flag array that describes memory `m` for pages 0..n-1: true for a resident page. */
  ghost function InMemory(m: Memory, n: nat): (flags: seq<bool>)
  {
    seq(n, p => Resident(m, p))
  }

  /**
   * A fault as the routine performs it on the flags (clear the flag of the
   * page evicted from the cursor's frame, if any, then set the flag of the
   * new page) leaves exactly the flags of the memory after the fault.
   */
  lemma FaultFlags(m: Memory, page: int, n: nat, oldPage: Option<int>, cleared: seq<bool>)
    requires WellFormed(m) && NoDuplicates(m.frames)
    requires 0 <= page < n && !Resident(m, page)
    requires oldPage == m.frames[m.cursor - 1]
    requires oldPage == None ==> cleared == InMemory(m, n)
    requires oldPage.Some? ==> 0 <= oldPage.value < n && cleared == InMemory(m, n)[oldPage.value := false]
    ensures cleared[page := true] == InMemory(Step(m, page).0, n)
  {
    var flags, flags' := cleared[page := true], InMemory(Step(m, page).0, n);
    forall p | 0 <= p < n
      ensures flags[p] == flags'[p]
    {
      StepResidency(m, page, p);
    }
  }

  /**
   * A fault as the routine performs it on the frame array (slot 0 unused)
   * stores the page in the cursor's slot, which is the memory after the fault.
   */
  lemma FaultFrames(m: Memory, page: int)
    requires WellFormed(m) && !Resident(m, page)
    ensures ([None] + m.frames)[m.cursor := Some(page)] == [None] + Step(m, page).0.frames
  {
  }

  /** A trace padded with None up to `n` entries: the result array part-way through a run. */
  function Padded(t: Trace, n: int): (r: Trace)
    requires |t| <= n
    ensures |r| == n
  {
    t + seq(n - |t|, _ => None)
  }

  /** Writing the next entry into a padded trace extends the trace by that entry. */
  lemma PaddedWrite(t: Trace, e: Option<int>, n: int)
    requires |t| < n
    ensures Padded(t, n)[|t| := e] == Padded(t + [e], n)
  {
  }

  /**
   * The miss branch of the routine for access `accessedIndex`, whose page is
   * not in memory: the page in the cursor's frame, if any, loses its flag,
   * the access records the cursor's frame, the frame takes the page, the
   * cursor moves on cyclically and the page gets its flag. The arrays then
   * stand for the specification's memory and trace one access further.
   */
  method Fault(numPages: int, numFrames: int, accessedPages: seq<int>, accessedIndex: int,
               pageInMemory: array<bool>, pageInFrame: array<Option<int>>,
               frameToSubstitute: array<Option<int>>, currentFrame: int, ghost run: Run)
    returns (nextFrame: int)
    requires numFrames >= 1 && 0 <= accessedIndex < |accessedPages| == frameToSubstitute.Length
    requires forall i :: 0 <= i < |accessedPages| ==> 0 <= accessedPages[i] <= numPages
    requires pageInMemory.Length == numPages + 1 && pageInFrame != frameToSubstitute
    requires run == Simulate(numFrames, accessedPages[..accessedIndex])
    requires pageInMemory[..] == InMemory(run.mem, pageInMemory.Length)
    requires pageInFrame[..] == [None] + run.mem.frames
    requires currentFrame == run.mem.cursor
    requires frameToSubstitute[..] == Padded(run.trace, |accessedPages|)
    requires !pageInMemory[accessedPages[accessedIndex]]
    modifies pageInMemory, pageInFrame, frameToSubstitute
    ensures var step := Step(run.mem, accessedPages[accessedIndex]);
            && pageInMemory[..] == InMemory(step.0, pageInMemory.Length)
            && pageInFrame[..] == [None] + step.0.frames
            && nextFrame == step.0.cursor
            && frameToSubstitute[..] == Padded(run.trace + [step.1], |accessedPages|)
  {
    var page := accessedPages[accessedIndex];
    ghost var step := Step(run.mem, page);
    ghost var flags, frames := pageInMemory[..], pageInFrame[..];
    var oldPage := pageInFrame[currentFrame];
    assert oldPage == run.mem.frames[run.mem.cursor - 1];
    if oldPage != None {
      assert 0 <= oldPage.value < pageInMemory.Length by {
        ResidentPageInRange(numFrames, accessedPages, accessedIndex, oldPage.value, numPages);
      }
      pageInMemory[oldPage.value] := false;
      assert pageInMemory[..] == flags[oldPage.value := false];
    }
    ghost var cleared := pageInMemory[..];
    frameToSubstitute[accessedIndex] := Some(currentFrame);
    assert frameToSubstitute[..] == Padded(run.trace + [step.1], |accessedPages|) by {
      PaddedWrite(run.trace, step.1, |accessedPages|);
    }
    pageInFrame[currentFrame] := Some(page);
    if currentFrame == numFrames {
      nextFrame := 1;
    } else {
      nextFrame := currentFrame + 1;
    }
    pageInMemory[page] := true;
    assert pageInMemory[..] == InMemory(step.0, pageInMemory.Length) by {
      assert pageInMemory[..] == cleared[page := true];
      SimulateNoDuplicates(numFrames, accessedPages[..accessedIndex]);
      FaultFlags(run.mem, page, pageInMemory.Length, oldPage, cleared);
    }
    assert pageInFrame[..] == [None] + step.0.frames by {
      assert pageInFrame[..] == frames[run.mem.cursor := Some(page)];
      FaultFrames(run.mem, page);
    }
  }

  /**
   * Runs FIFO replacement over `accessedPages` with `numFrames` frames and
   * pages 0..numPages, and returns, per access, the frame that received the
   * page on a fault, or None on a hit. The result is the trace of the FIFO
   * specification. With no accesses the result is empty whatever the frame
   * count, as long as the frame array can be allocated.
   */
  method Fifo(numPages: int, numFrames: int, accessedPages: seq<int>)
    returns (frameToSubstitute: array<Option<int>>)
    requires numFrames >= 1 || (numFrames >= -1 && accessedPages == [])
    requires forall i :: 0 <= i < |accessedPages| ==> 0 <= accessedPages[i] <= numPages
    ensures fresh(frameToSubstitute)
    ensures frameToSubstitute.Length == |accessedPages|
    ensures numFrames >= 1 ==> frameToSubstitute[..] == Simulate(numFrames, accessedPages).trace
  {
    var pageInMemory := new bool[if numPages >= 0 then numPages + 1 else 0](_ => false);
    var pageInFrame := new Option<int>[numFrames + 1](_ => None);
    frameToSubstitute := new Option<int>[|accessedPages|](_ => None);
    var currentFrame := 1;
    // The Kotlin loop simply runs zero times here; the early return only
    // spares the invariants below, which need Simulate and so numFrames >= 1.
    if accessedPages == [] {
      return;
    }
    ghost var run := Simulate(numFrames, []);
    assert pageInMemory[..] == InMemory(run.mem, pageInMemory.Length);
    assert pageInFrame[..] == [None] + run.mem.frames;
    assert frameToSubstitute[..] == Padded([], |accessedPages|);
    for accessedIndex := 0 to |accessedPages|
      invariant pageInFrame != frameToSubstitute
      invariant run == Simulate(numFrames, accessedPages[..accessedIndex])
      invariant pageInMemory[..] == InMemory(run.mem, pageInMemory.Length)
      invariant pageInFrame[..] == [None] + run.mem.frames
      invariant currentFrame == run.mem.cursor
      invariant frameToSubstitute[..] == Padded(run.trace, |accessedPages|)
    {
      var page := accessedPages[accessedIndex];
      ghost var step := Step(run.mem, page);
      if !pageInMemory[page] {
        currentFrame := Fault(numPages, numFrames, accessedPages, accessedIndex,
                              pageInMemory, pageInFrame, frameToSubstitute, currentFrame, run);
      } else {
        assert Padded(run.trace, |accessedPages|) == Padded(run.trace + [step.1], |accessedPages|) by {
          PaddedWrite(run.trace, step.1, |accessedPages|);
          assert Padded(run.trace, |accessedPages|)[accessedIndex := None] == Padded(run.trace, |accessedPages|);
        }
      }
      SimulateSnoc(numFrames, accessedPages, accessedIndex);
      run := Run(step.0, run.trace + [step.1]);
    }
    assert accessedPages[..|accessedPages|] == accessedPages;
    assert Padded(run.trace, |accessedPages|) == run.trace;
  }
}
