/** Value-level description of the integer list: the sequence that the chain of
    nodes spells out, what a search for a value reports, how insertion and removal
    reshape the sequence, and the order in which the reverse walk visits it. */
module ListSpec {

  /** 0-based position of the first `d` in `s`, or `|s|` when `d` does not occur. */
  function FirstIndex(s: seq<int>, d: int): (k: nat)
    ensures k <= |s|
  {
    if s == [] then 0
    else if s[0] == d then 0
    else 1 + FirstIndex(s[1..], d)
  }

  /** The first-occurrence position is exactly the position before which `d` never
      occurs and at which it does (when it occurs at all). */
  lemma {:induction false} FirstIndexSpec(s: seq<int>, d: int)
    ensures FirstIndex(s, d) < |s| <==> d in s
    ensures FirstIndex(s, d) < |s| ==> s[FirstIndex(s, d)] == d
    ensures forall j :: 0 <= j < FirstIndex(s, d) ==> s[j] != d
  {
    if s != [] && s[0] != d {
      FirstIndexSpec(s[1..], d);
      assert forall j :: 1 <= j < |s| ==> s[j] == s[1..][j - 1];
      assert d in s <==> d in s[1..] by {
        assert s == [s[0]] + s[1..];
      }
    }
  }

  /** Conversely, any position `k` with no `d` before it and `d` at it (or the end
      of `s`) is the first-occurrence position. */
  lemma {:induction false} FirstIndexUnique(s: seq<int>, d: int, k: nat)
    requires k <= |s|
    requires forall j :: 0 <= j < k ==> s[j] != d
    requires k < |s| ==> s[k] == d
    ensures FirstIndex(s, d) == k
  {
    FirstIndexSpec(s, d);
  }

  /** The value reported by a search for `d`: -1 for the empty list, -2 when the list
      is non-empty and `d` does not occur, otherwise the 1-based index of the first
      node holding `d`. */
  function IndexOf(s: seq<int>, d: int): int
  {
    if s == [] then -1
    else if FirstIndex(s, d) == |s| then -2
    else FirstIndex(s, d) + 1
  }

  /** A search has exactly three outcomes, each characterised in both directions. */
  lemma {:induction false} IndexOfCases(s: seq<int>, d: int)
    ensures IndexOf(s, d) == -1 <==> s == []
    ensures IndexOf(s, d) == -2 <==> s != [] && d !in s
    ensures IndexOf(s, d) >= 1 <==> d in s
    ensures IndexOf(s, d) == -1 || IndexOf(s, d) == -2 || 1 <= IndexOf(s, d) <= |s|
    ensures IndexOf(s, d) >= 1 ==>
              s[IndexOf(s, d) - 1] == d &&
              forall j :: 0 <= j < IndexOf(s, d) - 1 ==> s[j] != d
  {
    FirstIndexSpec(s, d);
  }

  /** `s` with `d` placed at 0-based position `k`, the later values shifted right. */
  function Spliced(s: seq<int>, k: nat, d: int): seq<int>
    requires k <= |s|
  {
    s[..k] + [d] + s[k..]
  }

  /** `s` with the value at 0-based position `k` taken out. */
  function Without(s: seq<int>, k: nat): seq<int>
    requires k < |s|
  {
    s[..k] + s[k + 1..]
  }

  /** A splice at `k` keeps the values before `k`, puts `d` at `k`, shifts the rest
      one place right and adds exactly one `d` to the values. */
  lemma {:induction false} SplicedShape(s: seq<int>, k: nat, d: int)
    requires k <= |s|
    ensures |Spliced(s, k, d)| == |s| + 1 && Spliced(s, k, d)[k] == d
    ensures forall j :: 0 <= j < k ==> Spliced(s, k, d)[j] == s[j]
    ensures forall j :: k < j <= |s| ==> Spliced(s, k, d)[j] == s[j - 1]
    ensures multiset(Spliced(s, k, d)) == multiset(s) + multiset{d}
  {
    assert s == s[..k] + s[k..];
  }

  /** Inserting `d` before the first `x` puts `d` at that index and `x` right after
      it; the length grows by one and the values are those of `s` plus `d`. A later
      search for `x` finds the new node when `d == x` and the old one, one further
      on, otherwise. */
  lemma {:induction false} SplicedBefore(s: seq<int>, x: int, d: int)
    requires IndexOf(s, x) >= 1
    ensures var i := IndexOf(s, x);
            var t := Spliced(s, i - 1, d);
            |t| == |s| + 1 && t[i - 1] == d && t[i] == x &&
            multiset(t) == multiset(s) + multiset{d} &&
            IndexOf(t, x) == (if d == x then i else i + 1)
  {
    var i := IndexOf(s, x);
    var t := Spliced(s, i - 1, d);
    FirstIndexSpec(s, x);
    SplicedShape(s, i - 1, d);
    assert t[i] == x;
    if d == x {
      FirstIndexUnique(t, x, i - 1);
    } else {
      assert forall j :: 0 <= j < i ==> t[j] != x;
      FirstIndexUnique(t, x, i);
    }
  }

  /** Inserting `d` after the first `x` keeps `x` first at the same index and puts
      `d` right after it; the values are those of `s` plus `d`. */
  lemma {:induction false} SplicedAfter(s: seq<int>, x: int, d: int)
    requires IndexOf(s, x) >= 1
    ensures var i := IndexOf(s, x);
            var t := Spliced(s, i, d);
            |t| == |s| + 1 && t[i - 1] == x && t[i] == d &&
            multiset(t) == multiset(s) + multiset{d} &&
            IndexOf(t, x) == i
  {
    var i := IndexOf(s, x);
    FirstIndexSpec(s, x);
    SplicedShape(s, i, d);
    FirstIndexUnique(Spliced(s, i, d), x, i - 1);
  }

  /** Taking out position `k` keeps the values before `k`, shifts the rest one place
      left and removes exactly one copy of the value at `k`. */
  lemma {:induction false} WithoutShape(s: seq<int>, k: nat)
    requires k < |s|
    ensures |Without(s, k)| == |s| - 1
    ensures forall j :: 0 <= j < k ==> Without(s, k)[j] == s[j]
    ensures forall j :: k <= j < |s| - 1 ==> Without(s, k)[j] == s[j + 1]
    ensures multiset(Without(s, k)) + multiset{s[k]} == multiset(s)
  {
    assert s == s[..k] + [s[k]] + s[k + 1..];
  }

  /** Removing the first `x` takes exactly one `x` out of the values and keeps the
      values before it; any `x` left is found at the removed index or later. */
  lemma {:induction false} WithoutFirst(s: seq<int>, x: int)
    requires IndexOf(s, x) >= 1
    ensures var i := IndexOf(s, x);
            var t := Without(s, i - 1);
            |t| == |s| - 1 && t[..i - 1] == s[..i - 1] &&
            multiset(t) + multiset{x} == multiset(s) &&
            (IndexOf(t, x) == -1 || IndexOf(t, x) == -2 || IndexOf(t, x) >= i)
  {
    var i := IndexOf(s, x);
    FirstIndexSpec(s, x);
    WithoutShape(s, i - 1);
    var t := Without(s, i - 1);
    FirstIndexSpec(t, x);
    assert t[..i - 1] == s[..i - 1];
    assert FirstIndex(t, x) >= i - 1;
  }

  /** The values in the order the recursive reverse walk visits them: the rest of
      the list first, then the head. */
  function Reversed(s: seq<int>): (r: seq<int>)
    ensures |r| == |s|
  {
    if s == [] then [] else Reversed(s[1..]) + [s[0]]
  }

  /** Position `k` of the reverse walk holds the value `k` places from the tail. */
  lemma {:induction false} ReversedIndex(s: seq<int>, k: nat)
    requires k < |s|
    ensures Reversed(s)[k] == s[|s| - 1 - k]
  {
    if k < |s| - 1 {
      ReversedIndex(s[1..], k);
    }
  }

  /** Reversing a concatenation reverses and swaps the parts. */
  lemma {:induction false} ReversedConcat(a: seq<int>, b: seq<int>)
    ensures Reversed(a + b) == Reversed(b) + Reversed(a)
  {
    if a == [] {
      assert a + b == b;
    } else {
      assert (a + b)[1..] == a[1..] + b;
      ReversedConcat(a[1..], b);
    }
  }

  /** Walking the reverse walk's output backwards gives the list again. */
  lemma {:induction false} ReversedTwice(s: seq<int>)
    ensures Reversed(Reversed(s)) == s
  {
    if s != [] {
      ReversedConcat(Reversed(s[1..]), [s[0]]);
      ReversedTwice(s[1..]);
      assert Reversed([s[0]]) == [s[0]] by {
        assert [s[0]][1..] == [];
      }
    }
  }
}
