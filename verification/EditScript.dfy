/** Line edits at positions of the original file, applied from the bottom up.
    This is the arithmetic document.go relies on when it keeps using the line
    numbers recorded while parsing. */
module EditScript {
  /** Positions are 0-based indexes into the original lines: Insert puts its line in front of line at. */
  datatype Edit<T> = Replace(at: int, line: T) | Insert(at: int, line: T)

  predicate Fits<T>(e: Edit<T>, n: int) {
    0 <= e.at && if e.Replace? then e.at < n else e.at <= n
  }

  function Apply<T>(lines: seq<T>, e: Edit<T>): seq<T>
    requires Fits(e, |lines|)
  {
    match e
    case Replace(at, line) => lines[at := line]
    case Insert(at, line) => lines[..at] + [line] + lines[at..]
  }

  /** Positions rise; an insertion and a replacement may share one, in that order. */
  predicate Ordered<T>(es: seq<Edit<T>>, n: int) {
    && (forall i :: 0 <= i < |es| ==> Fits(es[i], n))
    && forall i, j :: 0 <= i < j < |es| ==> Precedes(es[i], es[j])
  }

  predicate Precedes<T>(a: Edit<T>, b: Edit<T>) {
    a.at < b.at || (a.at == b.at && a.Insert? && b.Replace?)
  }

  /** Insertions among es[k..] at or above the original line p. */
  function InsertedUpTo<T>(es: seq<Edit<T>>, k: nat, p: int): (r: nat)
    requires k <= |es|
    ensures r <= |es| - k
    decreases |es| - k
  {
    if k == |es| then 0
    else (if es[k].Insert? && es[k].at <= p then 1 else 0) + InsertedUpTo(es, k + 1, p)
  }

  function Insertions<T>(es: seq<Edit<T>>, k: nat): nat
    requires k <= |es|
    decreases |es| - k
  {
    if k == |es| then 0 else (if es[k].Insert? then 1 else 0) + Insertions(es, k + 1)
  }

  /** es[k..] applied last to first, every one at its original position. */
  function BottomUp<T>(lines: seq<T>, es: seq<Edit<T>>, k: nat): (out: seq<T>)
    requires k <= |es| && Ordered(es, |lines|)
    ensures |out| == |lines| + Insertions(es, k)
    decreases |es| - k
  {
    if k == |es| then lines else Apply(BottomUp(lines, es, k + 1), es[k])
  }

  /** Where the original line p is afterwards. */
  function Moved<T>(es: seq<Edit<T>>, p: int): int { p + InsertedUpTo(es, 0, p) }

  lemma {:induction false} NoneUpTo<T>(es: seq<Edit<T>>, k: nat, p: int)
    requires k <= |es| && forall j :: k <= j < |es| ==> es[j].Insert? ==> p < es[j].at
    ensures InsertedUpTo(es, k, p) == 0
    decreases |es| - k
  {
    if k < |es| {
      NoneUpTo(es, k + 1, p);
    }
  }

  lemma {:induction false} UpToMonotone<T>(es: seq<Edit<T>>, k: nat, p: int, q: int)
    requires k <= |es| && p <= q
    ensures InsertedUpTo(es, k, p) <= InsertedUpTo(es, k, q) <= Insertions(es, k)
    decreases |es| - k
  {
    if k < |es| {
      UpToMonotone(es, k + 1, p, q);
    }
  }

  /** Moving keeps the order of the original lines. */
  lemma MovedKeepsOrder<T>(es: seq<Edit<T>>, p: int, q: int)
    requires p < q
    ensures Moved(es, p) < Moved(es, q)
  {
    UpToMonotone(es, 0, p, q);
  }

  /** Edits below line p do not insert above it. */
  lemma NoneBehind<T>(es: seq<Edit<T>>, k: nat, n: int, p: int)
    requires k < |es| && Ordered(es, n) && p <= es[k].at
    ensures InsertedUpTo(es, k + 1, p) == 0
  {
    forall j | k + 1 <= j < |es| && es[j].Insert? ensures p < es[j].at {
      assert Precedes(es[k], es[j]);
    }
    NoneUpTo(es, k + 1, p);
  }

  /** What the topmost of the edits es[k..] does to the original line p. */
  lemma OriginalStep<T>(lines: seq<T>, es: seq<Edit<T>>, k: nat, p: int)
    requires k < |es| && Ordered(es, |lines|) && 0 <= p < |lines|
    ensures var i, j := p + InsertedUpTo(es, k, p), p + InsertedUpTo(es, k + 1, p);
            && i < |BottomUp(lines, es, k)| && j < |BottomUp(lines, es, k + 1)|
            && BottomUp(lines, es, k)[i] ==
               if es[k].Replace? && es[k].at == p then es[k].line else BottomUp(lines, es, k + 1)[j]
  {
    UpToMonotone(es, k, p, p);
    UpToMonotone(es, k + 1, p, p);
    if p <= es[k].at {
      NoneBehind(es, k, |lines|, p);
    }
  }

  /** The text es[k..] leaves on the original line p. */
  function TextOf<T>(lines: seq<T>, es: seq<Edit<T>>, k: nat, p: int): T
    requires k <= |es| && 0 <= p < |lines|
    decreases |es| - k
  {
    if k == |es| then lines[p]
    else if es[k].Replace? && es[k].at == p then es[k].line
    else TextOf(lines, es, k + 1, p)
  }

  lemma {:induction false} TextIsFound<T>(lines: seq<T>, es: seq<Edit<T>>, k: nat, p: int)
    requires k <= |es| && Ordered(es, |lines|) && 0 <= p < |lines|
    ensures var i := p + InsertedUpTo(es, k, p);
            i < |BottomUp(lines, es, k)| && BottomUp(lines, es, k)[i] == TextOf(lines, es, k, p)
    decreases |es| - k
  {
    UpToMonotone(es, k, p, p);
    if k < |es| {
      TextIsFound(lines, es, k + 1, p);
      assert TextOf(lines, es, k, p) == if es[k].Replace? && es[k].at == p then es[k].line
             else TextOf(lines, es, k + 1, p);
      OriginalStep(lines, es, k, p);
    }
  }

  lemma {:induction false} ReplacedText<T>(lines: seq<T>, es: seq<Edit<T>>, k: nat, j: nat)
    requires k <= j < |es| && Ordered(es, |lines|) && es[j].Replace?
    ensures TextOf(lines, es, k, es[j].at) == es[j].line
    decreases j - k
  {
    if k < j {
      assert Precedes(es[k], es[j]);
      ReplacedText(lines, es, k + 1, j);
    }
  }

  lemma {:induction false} KeptText<T>(lines: seq<T>, es: seq<Edit<T>>, k: nat, p: int)
    requires k <= |es| && 0 <= p < |lines|
    requires forall j :: k <= j < |es| && es[j].Replace? ==> es[j].at != p
    ensures TextOf(lines, es, k, p) == lines[p]
    decreases |es| - k
  {
    if k < |es| {
      KeptText(lines, es, k + 1, p);
    }
  }

  /** What the lines of the result are, for one original line. */
  lemma OriginalLine<T>(lines: seq<T>, es: seq<Edit<T>>, k: nat, p: int)
    requires k <= |es| && Ordered(es, |lines|) && 0 <= p < |lines|
    ensures p + InsertedUpTo(es, k, p) < |BottomUp(lines, es, k)|
    ensures forall j :: k <= j < |es| && es[j].Replace? && es[j].at == p ==>
              BottomUp(lines, es, k)[p + InsertedUpTo(es, k, p)] == es[j].line
    ensures (forall j :: k <= j < |es| && es[j].Replace? ==> es[j].at != p) ==>
              BottomUp(lines, es, k)[p + InsertedUpTo(es, k, p)] == lines[p]
  {
    TextIsFound(lines, es, k, p);
    if j: nat :| k <= j < |es| && es[j].Replace? && es[j].at == p {
      forall j | k <= j < |es| && es[j].Replace? && es[j].at == p ensures TextOf(lines, es, k, p) == es[j].line {
        ReplacedText(lines, es, k, j);
      }
    } else {
      KeptText(lines, es, k, p);
    }
  }

  /** An inserted line is found directly below the line it was inserted under. */
  lemma {:induction false} InsertedLine<T>(lines: seq<T>, es: seq<Edit<T>>, k: nat, j: nat)
    requires k <= j < |es| && Ordered(es, |lines|) && es[j].Insert?
    ensures var i := es[j].at + InsertedUpTo(es, k, es[j].at - 1);
            i < |BottomUp(lines, es, k)| && BottomUp(lines, es, k)[i] == es[j].line
    decreases |es| - k
  {
    UpToMonotone(es, k, es[j].at - 1, es[j].at);
    if k == j {
      forall i | k <= i < |es| && es[i].Insert? ensures es[j].at - 1 < es[i].at {
        assert i > j ==> Precedes(es[j], es[i]);
      }
      NoneUpTo(es, k, es[j].at - 1);
    } else {
      InsertedLine(lines, es, k + 1, j);
      assert Precedes(es[k], es[j]);
      var e, i := es[k], es[j].at + InsertedUpTo(es, k + 1, es[j].at - 1);
      assert if e.Insert? then e.at <= i && InsertedUpTo(es, k, es[j].at - 1) ==
          InsertedUpTo(es, k + 1, es[j].at - 1) + 1
             else e.at < i;
    }
  }

  /** Each edit takes effect where its position has moved to. */
  lemma EditTakesEffect<T>(lines: seq<T>, es: seq<Edit<T>>, e: Edit<T>)
    requires Ordered(es, |lines|) && e in es
    ensures var out, at := BottomUp(lines, es, 0), if e.Replace? then Moved(es, e.at) else Moved(es, e.at - 1) + 1;
            0 <= at < |out| && out[at] == e.line
  {
    var j :| 0 <= j < |es| && es[j] == e;
    assert Fits(e, |lines|);
    if e.Replace? {
      OriginalLine(lines, es, 0, e.at);
    } else {
      InsertedLine(lines, es, 0, j);
    }
  }

  /** Lines above every remaining edit are as they were, at their old index. */
  lemma {:induction false} PrefixStays<T>(lines: seq<T>, es: seq<Edit<T>>, k: nat, p: int)
    requires k <= |es| && Ordered(es, |lines|) && 0 <= p < |lines|
    requires k < |es| ==> p < es[k].at
    ensures p < |BottomUp(lines, es, k)| && BottomUp(lines, es, k)[p] == lines[p]
  {
    forall j | k <= j < |es| ensures p < es[j].at {
      assert j > k ==> Precedes(es[k], es[j]);
    }
    NoneUpTo(es, k, p);
    OriginalLine(lines, es, k, p);
  }

  /** Putting one more edit in front applies it to what the others left. */
  lemma {:induction false} BottomUpTail<T>(lines: seq<T>, e: Edit<T>, es: seq<Edit<T>>, k: nat)
    requires k <= |es| && Ordered([e] + es, |lines|)
    ensures Ordered(es, |lines|)
    ensures BottomUp(lines, [e] + es, k + 1) == BottomUp(lines, es, k)
    decreases |es| - k
  {
    forall i, j | 0 <= i < j < |es| ensures Precedes(es[i], es[j]) {
      assert Precedes(([e] + es)[i + 1], ([e] + es)[j + 1]);
    }
    forall i | 0 <= i < |es| ensures Fits(es[i], |lines|) {
      assert Fits(([e] + es)[i + 1], |lines|);
    }
    if k < |es| {
      BottomUpTail(lines, e, es, k + 1);
    }
  }
}
