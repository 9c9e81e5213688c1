/**
 * The leaderboard as a value: the records of the linked list from head to
 * tail, and what RecordNode insertion does to that sequence.
 */
module Records {

  /** One RecordNode's data: who, the sort key in seconds, and the time as displayed. */
  datatype Record = Record(playerName: string, timeSeconds: int, timeString: string)

  /** Non-decreasing by timeSeconds, best (lowest) time first. */
  predicate Sorted(s: seq<Record>) {
    forall i, j :: 0 <= i < j < |s| ==> s[i].timeSeconds <= s[j].timeSeconds
  }

  /** Sortedness is the adjacent-pairs invariant the linked list keeps. */
  lemma {:induction false} SortedIffAdjacent(s: seq<Record>)
    ensures Sorted(s) <==> forall i :: 0 <= i < |s| - 1 ==> s[i].timeSeconds <= s[i + 1].timeSeconds
  {
    if |s| > 1 {
      SortedIffAdjacent(s[1..]);
      if forall i :: 0 <= i < |s| - 1 ==> s[i].timeSeconds <= s[i + 1].timeSeconds {
        assert forall i :: 0 <= i < |s[1..]| - 1 ==> s[1..][i].timeSeconds <= s[1..][i + 1].timeSeconds by {
          forall i | 0 <= i < |s[1..]| - 1
            ensures s[1..][i].timeSeconds <= s[1..][i + 1].timeSeconds
          {
            assert s[1..][i] == s[i + 1] && s[1..][i + 1] == s[i + 2];
          }
        }
        forall i, j | 0 <= i < j < |s|
          ensures s[i].timeSeconds <= s[j].timeSeconds
        {
          if i > 0 {
            assert s[i] == s[1..][i - 1] && s[j] == s[1..][j - 1];
          } else {
            assert s[1] == s[1..][0] && s[j] == s[1..][j - 1];
          }
        }
      }
    }
  }

  /**
   * Where a record with time `t` goes: the first position whose time is
   * strictly greater than `t` (the end if there is none). Everything before it
   * has a time <= `t`, so equal times are placed after the earlier ones.
   */
  function InsertionPoint(s: seq<Record>, t: int): (k: nat)
    ensures k <= |s|
    ensures forall i :: 0 <= i < k ==> s[i].timeSeconds <= t
    ensures k < |s| ==> t < s[k].timeSeconds
  {
    if s == [] || t < s[0].timeSeconds then 0 else 1 + InsertionPoint(s[1..], t)
  }

  /** The list after InsertarOrdenado: `r` spliced in at its insertion point. */
  function Insert(s: seq<Record>, r: Record): seq<Record> {
    var k := InsertionPoint(s, r.timeSeconds);
    s[..k] + [r] + s[k..]
  }

  /** The three facts of InsertionPoint's contract determine it. */
  lemma InsertionPointUnique(s: seq<Record>, t: int, p: nat)
    requires p <= |s|
    requires forall i :: 0 <= i < p ==> s[i].timeSeconds <= t
    requires p < |s| ==> t < s[p].timeSeconds
    ensures InsertionPoint(s, t) == p
  {
  }

  /** Insertion adds exactly the new record: one more element, the same multiset plus `r`. */
  lemma InsertAddsOne(s: seq<Record>, r: Record)
    ensures |Insert(s, r)| == |s| + 1
    ensures multiset(Insert(s, r)) == multiset(s) + multiset{r}
  {
    var k := InsertionPoint(s, r.timeSeconds);
    assert s == s[..k] + s[k..];
    assert multiset(s) == multiset(s[..k]) + multiset(s[k..]);
  }

  /**
   * Insertion keeps the other records in their order: taking the new record
   * out again gives back the old list. The new record follows every record
   * before it and precedes a strictly later time.
   */
  lemma InsertPlacement(s: seq<Record>, r: Record)
    ensures var k := InsertionPoint(s, r.timeSeconds);
      k < |Insert(s, r)| &&
      Insert(s, r)[k] == r &&
      Insert(s, r)[..k] + Insert(s, r)[k + 1..] == s &&
      (forall i :: 0 <= i < k ==> Insert(s, r)[i].timeSeconds <= r.timeSeconds) &&
      (k < |s| ==> r.timeSeconds < Insert(s, r)[k + 1].timeSeconds)
  {
    var k := InsertionPoint(s, r.timeSeconds);
    var u := Insert(s, r);
    assert u[..k] == s[..k];
    assert u[k + 1..] == s[k..];
    assert s == s[..k] + s[k..];
    assert forall i :: 0 <= i < k ==> u[i] == s[i];
  }

  /** In a sorted list the insertion point separates the times <= t from the later ones. */
  lemma InsertionPointSplits(s: seq<Record>, t: int)
    requires Sorted(s)
    ensures forall i :: 0 <= i < |s| ==> (i < InsertionPoint(s, t) <==> s[i].timeSeconds <= t)
  {
  }

  /** Sorted insertion keeps the list sorted. */
  lemma InsertKeepsSorted(s: seq<Record>, r: Record)
    requires Sorted(s)
    ensures Sorted(Insert(s, r))
  {
    var k := InsertionPoint(s, r.timeSeconds);
    var u := Insert(s, r);
    forall i, j | 0 <= i < j < |u|
      ensures u[i].timeSeconds <= u[j].timeSeconds
    {
      if j < k {
        assert u[i] == s[i] && u[j] == s[j];
      } else if j == k {
        assert u[j] == r;
      } else if i > k {
        assert u[i] == s[i - 1] && u[j] == s[j - 1];
      } else if i == k {
        assert u[i] == r && u[j] == s[j - 1];
      } else {
        assert u[i] == s[i] && u[j] == s[j - 1];
      }
    }
  }

  /** A record at least as late as every other goes last. */
  lemma InsertAtEnd(s: seq<Record>, r: Record)
    requires forall i :: 0 <= i < |s| ==> s[i].timeSeconds <= r.timeSeconds
    ensures Insert(s, r) == s + [r]
  {
    InsertionPointUnique(s, r.timeSeconds, |s|);
  }

  /**
   * Ties are first in, first out: inserting `a` and then `b`, whose time is
   * not earlier, into a sorted list leaves `a` before `b`.
   */
  lemma InsertFifo(s: seq<Record>, a: Record, b: Record)
    requires Sorted(s)
    requires a.timeSeconds <= b.timeSeconds
    ensures var ka := InsertionPoint(s, a.timeSeconds);
      var kb := InsertionPoint(Insert(s, a), b.timeSeconds);
      ka < kb && Insert(Insert(s, a), b)[ka] == a && Insert(Insert(s, a), b)[kb] == b
    ensures a.timeSeconds == b.timeSeconds ==>
      InsertionPoint(Insert(s, a), b.timeSeconds) == InsertionPoint(s, a.timeSeconds) + 1
  {
    var ka := InsertionPoint(s, a.timeSeconds);
    var s1 := Insert(s, a);
    InsertPlacement(s, a);
    InsertAddsOne(s, a);
    InsertKeepsSorted(s, a);
    InsertionPointSplits(s1, b.timeSeconds);
    InsertPlacement(s1, b);
  }
}
