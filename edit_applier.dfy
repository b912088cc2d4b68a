/**
 * The edit applier of the import-path rule: a list of modifications, found in
 * document order, is spliced into the file text from the last one to the
 * first, so that each splice leaves the offsets of the ones still to come valid.
 */
module EditApplier {

  /** Replace the half-open span [startPosition, endPosition) of a text by `content`. */
  datatype Modification = Modification(startPosition: nat, endPosition: nat, content: string)

  function Min(a: nat, b: nat): nat { if a <= b then a else b }

  /**
   * One step of the loop: `source.slice(0, start) + content + source.slice(end)`.
   * JavaScript's `slice` clamps an index past the end of the string to its length.
   */
  function Splice(s: string, m: Modification): (r: string)
    ensures var start, end := Min(m.startPosition, |s|), Min(m.endPosition, |s|);
      && |r| == start + |m.content| + (|s| - end)
      && r[..start] == s[..start]
      && r[start..start + |m.content|] == m.content
      && r[start + |m.content|..] == s[end..]
  {
    s[..Min(m.startPosition, |s|)] + m.content + s[Min(m.endPosition, |s|)..]
  }

  /** An in-bounds splice replaces exactly its span, and the length changes by the difference. */
  lemma SpliceInBounds(s: string, m: Modification)
    requires m.startPosition <= m.endPosition <= |s|
    ensures Splice(s, m) == s[..m.startPosition] + m.content + s[m.endPosition..]
    ensures |Splice(s, m)| == |s| - (m.endPosition - m.startPosition) + |m.content|
  {
  }

  /** The text after splicing `ms` from the last modification to the first. */
  function ApplyReversed(s: string, ms: seq<Modification>): string
  {
    if ms == [] then s else Splice(ApplyReversed(s, ms[1..]), ms[0])
  }

  /** The loop of `updateImportPaths` over `modifications.reverse()`. */
  method ApplyModifications(source: string, modifications: seq<Modification>) returns (result: string)
    ensures result == ApplyReversed(source, modifications)
    ensures modifications == [] ==> result == source
  {
    result := source;
    var i := |modifications|;
    while i > 0
      invariant 0 <= i <= |modifications|
      invariant result == ApplyReversed(source, modifications[i..])
    {
      i := i - 1;
      assert modifications[i..][1..] == modifications[i + 1..];
      result := Splice(result, modifications[i]);
    }
  }

  /**
   * Spans inside a text of length n, in ascending order and pairwise disjoint
   * (two spans may touch).
   */
  predicate Ascending(ms: seq<Modification>, n: nat)
  {
    && (forall k :: 0 <= k < |ms| ==> ms[k].startPosition <= ms[k].endPosition <= n)
    && (forall i, j :: 0 <= i < j < |ms| ==> ms[i].endPosition <= ms[j].startPosition)
  }

  /** The first offset a rebuild may start from: the start of the first span, or the end of the text. */
  function FirstStart(ms: seq<Modification>, n: nat): nat
  {
    if ms == [] then n else ms[0].startPosition
  }

  /** How much one modification lengthens the text (negative when it shortens it). */
  function Growth(m: Modification): int
  {
    |m.content| - (m.endPosition - m.startPosition)
  }

  /** How much all the modifications lengthen the text together. */
  function TotalGrowth(ms: seq<Modification>): int
  {
    if ms == [] then 0 else Growth(ms[0]) + TotalGrowth(ms[1..])
  }

  /**
   * The single left-to-right rebuild of `s[from..]`: the original segments
   * between the spans, interleaved with each modification's content.
   */
  function Rebuild(s: string, ms: seq<Modification>, from: nat): (r: string)
    requires Ascending(ms, |s|) && from <= FirstStart(ms, |s|)
    ensures |r| == |s| - from + TotalGrowth(ms)
    decreases |ms|
  {
    if ms == [] then s[from..]
    else s[from..ms[0].startPosition] + ms[0].content + Rebuild(s, ms[1..], ms[0].endPosition)
  }

  /** The tail of an ascending list is ascending, and the text left behind its head starts where the tail may start. */
  lemma AscendingTail(ms: seq<Modification>, n: nat)
    requires Ascending(ms, n) && ms != []
    ensures Ascending(ms[1..], n)
    ensures ms[0].endPosition <= FirstStart(ms[1..], n)
  {
  }

  /** One step of the rebuild: the segment before the first span, its content, then the rest. */
  lemma RebuildStep(s: string, ms: seq<Modification>, from: nat)
    requires Ascending(ms, |s|) && from <= FirstStart(ms, |s|) && ms != []
    ensures Ascending(ms[1..], |s|) && ms[0].endPosition <= FirstStart(ms[1..], |s|)
    ensures Rebuild(s, ms, from)
            == (s[from..ms[0].startPosition] + ms[0].content) + Rebuild(s, ms[1..], ms[0].endPosition)
  {
    AscendingTail(ms, |s|);
  }

  lemma {:induction false} ApplyReversedIsRebuildFrom(s: string, ms: seq<Modification>, from: nat)
    requires Ascending(ms, |s|) && from <= FirstStart(ms, |s|)
    ensures ApplyReversed(s, ms) == s[..from] + Rebuild(s, ms, from)
    decreases |ms|
  {
    if ms == [] {
      assert s == s[..from] + s[from..];
    } else {
      var m := ms[0];
      RebuildStep(s, ms, from);
      ApplyReversedIsRebuildFrom(s, ms[1..], m.endPosition);
      var t := ApplyReversed(s, ms[1..]);
      var tail := Rebuild(s, ms[1..], m.endPosition);
      var front := s[..m.endPosition];
      assert t == front + tail;
      assert |front| == m.endPosition;
      assert t[..m.startPosition] == s[..m.startPosition];
      assert t[m.endPosition..] == tail;
      calc {
        ApplyReversed(s, ms);
        Splice(t, m);
        s[..m.startPosition] + m.content + tail;
        { assert s[..m.startPosition] == s[..from] + s[from..m.startPosition]; }
        s[..from] + (s[from..m.startPosition] + m.content + tail);
      }
    }
  }

  /**
   * Splicing ascending, disjoint, in-bounds modifications from the last to the
   * first gives the same text as one left-to-right rebuild from the original.
   */
  lemma ApplyReversedIsRebuild(s: string, ms: seq<Modification>)
    requires Ascending(ms, |s|)
    ensures ApplyReversed(s, ms) == Rebuild(s, ms, 0)
    ensures |ApplyReversed(s, ms)| == |s| + TotalGrowth(ms)
  {
    ApplyReversedIsRebuildFrom(s, ms, 0);
  }

  /** Offset p lies in no span of `ms`. */
  predicate Outside(ms: seq<Modification>, p: nat)
  {
    forall k :: 0 <= k < |ms| ==> p < ms[k].startPosition || ms[k].endPosition <= p
  }

  /**
   * The growth of the modifications that end at or before offset p; for
   * ascending spans those form a prefix of the list.
   */
  function GrowthBefore(ms: seq<Modification>, p: nat): int
  {
    if ms == [] || ms[0].endPosition > p then 0 else Growth(ms[0]) + GrowthBefore(ms[1..], p)
  }

  lemma {:induction false} RebuildKeepsCharacter(s: string, ms: seq<Modification>, from: nat, p: nat)
    requires Ascending(ms, |s|) && from <= FirstStart(ms, |s|)
    requires from <= p < |s| && Outside(ms, p)
    ensures 0 <= p - from + GrowthBefore(ms, p) < |Rebuild(s, ms, from)|
    ensures Rebuild(s, ms, from)[p - from + GrowthBefore(ms, p)] == s[p]
    decreases |ms|
  {
    if ms != [] {
      var m := ms[0];
      RebuildStep(s, ms, from);
      var head := s[from..m.startPosition] + m.content;
      var rest := Rebuild(s, ms[1..], m.endPosition);
      assert p < m.startPosition || m.endPosition <= p;
      if m.endPosition <= p {
        assert Outside(ms[1..], p) by {
          forall k | 0 <= k < |ms[1..]|
            ensures p < ms[1..][k].startPosition || ms[1..][k].endPosition <= p
          {
            assert ms[1..][k] == ms[k + 1];
          }
        }
        RebuildKeepsCharacter(s, ms[1..], m.endPosition, p);
        var q := p - m.endPosition + GrowthBefore(ms[1..], p);
        assert p - from + GrowthBefore(ms, p) == |head| + q;
        assert (head + rest)[|head| + q] == rest[q];
      } else {
        assert GrowthBefore(ms, p) == 0;
        assert (head + rest)[p - from] == head[p - from];
      }
    }
  }

  /**
   * Every character outside the spans survives the splicing, moved by how much the
   * modifications before it lengthened the text.
   */
  lemma ApplyReversedKeepsCharacter(s: string, ms: seq<Modification>, p: nat)
    requires Ascending(ms, |s|) && p < |s| && Outside(ms, p)
    ensures 0 <= p + GrowthBefore(ms, p) < |ApplyReversed(s, ms)|
    ensures ApplyReversed(s, ms)[p + GrowthBefore(ms, p)] == s[p]
  {
    ApplyReversedIsRebuild(s, ms);
    RebuildKeepsCharacter(s, ms, 0, p);
  }
}
