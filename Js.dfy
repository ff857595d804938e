/** The few JavaScript built-ins whose exact semantics the two extensions
    depend on: `Array.prototype.indexOf`, `Array.prototype.splice` with a
    delete count of one, and `String.prototype.match` against a literal. */
module Js {

  datatype Option<T> = None | Some(value: T)

  /** A sequence without repeated elements. */
  predicate NoDup<T(==)>(s: seq<T>) {
    forall i, j :: 0 <= i < j < |s| ==> s[i] != s[j]
  }

  /** `s.indexOf(x)`: the index of the first occurrence of `x`, or -1. */
  function IndexOf<T(==)>(s: seq<T>, x: T): (i: int)
    ensures -1 <= i < |s|
    ensures i == -1 <==> x !in s
    ensures 0 <= i ==> s[i] == x && x !in s[..i]
  {
    if |s| == 0 then -1
    else if s[0] == x then 0
    else
      var j := IndexOf(s[1..], x);
      assert s[1..][..if j < 0 then 0 else j] == s[1..if j < 0 then 1 else j + 1];
      if j < 0 then -1 else j + 1
  }

  /** `s.splice(start, 1)` as it leaves the array: a negative start counts
      from the end (and is clamped at 0), a start past the end deletes
      nothing. */
  function SpliceOne<T>(s: seq<T>, start: int): seq<T>
  {
    var from := if start < 0 then (if |s| + start < 0 then 0 else |s| + start)
                else (if start > |s| then |s| else start);
    if from < |s| then s[..from] + s[from + 1..] else s
  }

  /** `s.splice(s.indexOf(x), 1)`, the idiom both watcher `unlink`
      handlers use to drop a path from the watch list. */
  function RemoveWatched<T(==)>(s: seq<T>, x: T): seq<T>
  {
    SpliceOne(s, IndexOf(s, x))
  }

  /** When `x` is present the idiom removes its first occurrence and keeps
      the order of everything else; on a list without duplicates the result
      holds exactly the other elements, still without duplicates. */
  lemma RemoveWatchedPresent<T>(s: seq<T>, x: T)
    requires x in s
    ensures var k := IndexOf(s, x);
      0 <= k < |s| && s[k] == x && RemoveWatched(s, x) == s[..k] + s[k + 1..]
    ensures |RemoveWatched(s, x)| == |s| - 1
    ensures NoDup(s) ==> NoDup(RemoveWatched(s, x))
    ensures NoDup(s) ==> (set y | y in RemoveWatched(s, x)) == (set y | y in s) - {x}
  {
    var k := IndexOf(s, x);
    assert RemoveWatched(s, x) == s[..k] + s[k + 1..];
    if NoDup(s) {
      DropAtNoDup(s, k);
      DropAtElements(s, k, RemoveWatched(s, x));
    }
  }

  /** Element `i` of `s` without its element `k` is element `i` or
      `i + 1` of `s`. */
  lemma DropAtIndex<T>(s: seq<T>, k: nat, i: nat)
    requires k < |s| && i < |s| - 1
    ensures (s[..k] + s[k + 1..])[i] == s[if i < k then i else i + 1]
  {
  }

  /** Dropping one element keeps a list free of duplicates. */
  lemma DropAtNoDup<T>(s: seq<T>, k: nat)
    requires k < |s| && NoDup(s)
    ensures NoDup(s[..k] + s[k + 1..])
  {
    var r := s[..k] + s[k + 1..];
    forall i, j | 0 <= i < j < |r|
      ensures r[i] != r[j]
    {
      DropAtIndex(s, k, i);
      DropAtIndex(s, k, j);
    }
  }

  /** On a list without duplicates, dropping element `k` leaves exactly
      the other elements. */
  lemma DropAtElements<T>(s: seq<T>, k: nat, r: seq<T>)
    requires k < |s| && NoDup(s) && r == s[..k] + s[k + 1..]
    ensures (set y | y in r) == (set y | y in s) - {s[k]}
  {
    forall y | y in r
      ensures y in s && y != s[k]
    {
      var i :| 0 <= i < |r| && r[i] == y;
      DropAtIndex(s, k, i);
    }
    forall y | y in s && y != s[k]
      ensures y in r
    {
      var i :| 0 <= i < |s| && s[i] == y;
      if i < k {
        DropAtIndex(s, k, i);
      } else {
        DropAtIndex(s, k, i - 1);
      }
    }
  }

  /** When `x` is absent, `indexOf` yields -1 and `splice(-1, 1)` deletes
      the LAST element of the list, which is some other path. */
  lemma RemoveWatchedAbsent<T>(s: seq<T>, x: T)
    requires x !in s
    ensures s == [] ==> RemoveWatched(s, x) == []
    ensures s != [] ==> RemoveWatched(s, x) == s[..|s| - 1] && s[|s| - 1] != x
  {
  }

  /** `s.match(/lit/)` for a literal pattern: `lit` occurs somewhere in `s`. */
  predicate Contains(s: string, lit: string)
    decreases |s|
  {
    (|lit| <= |s| && s[..|lit|] == lit) || (|s| > 0 && Contains(s[1..], lit))
  }

  /** `Contains` finds an occurrence exactly when there is one at some offset. */
  lemma {:induction false} ContainsAt(s: string, lit: string)
    ensures Contains(s, lit) <==> exists i :: 0 <= i <= |s| - |lit| && s[i..][..|lit|] == lit
  {
    if |lit| <= |s| && s[..|lit|] == lit {
      assert s[0..][..|lit|] == lit;
    }
    if |s| > 0 {
      ContainsAt(s[1..], lit);
      if Contains(s[1..], lit) {
        var i :| 0 <= i <= |s| - 1 - |lit| && s[1..][i..][..|lit|] == lit;
        assert s[i + 1..][..|lit|] == lit;
      }
      if exists i :: 0 <= i <= |s| - |lit| && s[i..][..|lit|] == lit {
        var i :| 0 <= i <= |s| - |lit| && s[i..][..|lit|] == lit;
        if i > 0 { assert s[1..][i - 1..] == s[i..]; }
      }
    }
  }
}
