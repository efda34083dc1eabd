/**
 * The two Enumerable queries every registry lookup of the ledger is built from:
 * `find` (first element satisfying a block, or nil) and `find_all`
 * (every element satisfying a block, in the original order).
 */
module Enumerable {
  import opened Wrappers

  /** Ruby's `find`: the first element of `s` on which `p` holds. */
  function Find<T>(s: seq<T>, p: T -> bool): (r: Option<T>)
    ensures r.None? <==> forall i :: 0 <= i < |s| ==> !p(s[i])
    ensures r.Some? ==>
      exists i :: 0 <= i < |s| && s[i] == r.value && p(s[i]) && forall j :: 0 <= j < i ==> !p(s[j])
  {
    if s == [] then None
    else if p(s[0]) then Some(s[0])
    else
      var r := Find(s[1..], p);
      assert r.Some? ==> exists i :: 0 <= i < |s[1..]| && s[1..][i] == r.value && p(s[1..][i]) && forall j :: 0 <= j < i ==> !p(s[1..][j]);
      assert r.Some? ==> exists i :: 1 <= i < |s| && s[i] == r.value && p(s[i]) && forall j :: 0 <= j < i ==> !p(s[j]) by {
        if r.Some? {
          var i :| 0 <= i < |s[1..]| && s[1..][i] == r.value && p(s[1..][i]) && forall j :: 0 <= j < i ==> !p(s[1..][j]);
          assert forall j :: 0 <= j < i + 1 ==> !p(s[j]) by {
            forall j | 0 <= j < i + 1 ensures !p(s[j]) {
              if j > 0 { assert s[j] == s[1..][j - 1]; }
            }
          }
        }
      }
      r
  }

  /** Ruby's `find_all`: the elements of `s` on which `p` holds, in their order in `s`. */
  function FindAll<T>(s: seq<T>, p: T -> bool): (r: seq<T>)
    ensures |r| <= |s|
    ensures forall x :: x in r ==> x in s && p(x)
    ensures forall i :: 0 <= i < |s| && p(s[i]) ==> s[i] in r
  {
    if s == [] then []
    else
      var rest := FindAll(s[1..], p);
      assert forall i :: 1 <= i < |s| ==> s[i] == s[1..][i - 1];
      if p(s[0]) then [s[0]] + rest else rest
  }

  /** `find_all` keeps every qualifying element as often as it occurs, and drops the others. */
  lemma {:induction false} FindAllCount<T>(s: seq<T>, p: T -> bool, x: T)
    ensures multiset(FindAll(s, p))[x] == if p(x) then multiset(s)[x] else 0
  {
    if s != [] {
      FindAllCount(s[1..], p, x);
      assert s == [s[0]] + s[1..];
      assert multiset(s) == multiset{s[0]} + multiset(s[1..]);
      if p(s[0]) {
        assert multiset([s[0]] + FindAll(s[1..], p)) == multiset{s[0]} + multiset(FindAll(s[1..], p));
      }
    }
  }

  /** `find_all` distributes over concatenation: it keeps the order of its input. */
  lemma {:induction false} FindAllAppend<T>(s: seq<T>, t: seq<T>, p: T -> bool)
    ensures FindAll(s + t, p) == FindAll(s, p) + FindAll(t, p)
  {
    if s == [] {
      assert s + t == t;
    } else {
      assert (s + t)[1..] == s[1..] + t;
      assert (s + t)[0] == s[0];
      FindAllAppend(s[1..], t, p);
    }
  }

  /** Adding one element at the end adds it at the end of the result exactly when it qualifies. */
  lemma FindAllSnoc<T>(s: seq<T>, x: T, p: T -> bool)
    ensures FindAll(s + [x], p) == FindAll(s, p) + (if p(x) then [x] else [])
  {
    FindAllAppend(s, [x], p);
    assert [x][1..] == [];
  }

  /** When every element qualifies, `find_all` returns its input unchanged. */
  lemma {:induction false} FindAllKeepsAll<T>(s: seq<T>, p: T -> bool)
    requires forall i :: 0 <= i < |s| ==> p(s[i])
    ensures FindAll(s, p) == s
  {
    if s != [] {
      assert forall i :: 0 <= i < |s[1..]| ==> s[1..][i] == s[i + 1];
      FindAllKeepsAll(s[1..], p);
      assert s == [s[0]] + s[1..];
    }
  }
}
