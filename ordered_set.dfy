/**
 * A JavaScript `Set` of chat identifiers, kept as a duplicate-free sequence in insertion
 * order: `add` of a present element keeps its position, `add` of a new one appends it, and
 * `delete` removes it and keeps the order of the rest.
 */
module OrderedSet {
  predicate NoDup(s: seq<string>) {
    forall i, j :: 0 <= i < j < |s| ==> s[i] != s[j]
  }

  /** `Set.prototype.add` */
  function Add(s: seq<string>, x: string): (r: seq<string>)
    ensures forall y :: y in r <==> y in s || y == x
    ensures s <= r && |r| <= |s| + 1
    ensures x in s ==> r == s
    ensures NoDup(s) ==> NoDup(r)
  {
    if x in s then s else s + [x]
  }

  /** `Set.prototype.delete` */
  function Delete(s: seq<string>, x: string): (r: seq<string>)
    ensures forall y :: y in r <==> y in s && y != x
    ensures x !in s ==> r == s
    decreases |s|
  {
    if s == [] then []
    else if s[0] == x then Delete(s[1..], x)
    else [s[0]] + Delete(s[1..], x)
  }

  /** Deleting from a duplicate-free sequence removes exactly one element and keeps it duplicate-free. */
  lemma {:induction false} DeleteKeepsNoDup(s: seq<string>, x: string)
    ensures NoDup(s) ==> NoDup(Delete(s, x))
    ensures NoDup(s) && x in s ==> |Delete(s, x)| == |s| - 1
    decreases |s|
  {
    if s != [] && NoDup(s) {
      assert forall k :: 0 <= k < |s[1..]| ==> s[1..][k] == s[k + 1];
      DeleteKeepsNoDup(s[1..], x);
      if s[0] != x {
        NoDupCons(s[0], Delete(s[1..], x));
      }
    }
  }

  /** `delete` of a present element takes it out where it stands and keeps the others in order. */
  lemma {:induction false} DeleteKeepsOrder(s: seq<string>, x: string, k: nat)
    requires NoDup(s) && k < |s| && s[k] == x
    ensures Delete(s, x) == s[..k] + s[k + 1..]
    decreases k
  {
    if k == 0 {
      assert x !in s[1..] by {
        forall j | 0 <= j < |s[1..]| ensures s[1..][j] != x {
          assert s[1..][j] == s[j + 1];
        }
      }
    } else {
      assert s[0] != x;
      assert forall i, j :: 0 <= i < j < |s[1..]| ==> s[1..][i] == s[i + 1] && s[1..][j] == s[j + 1];
      DeleteKeepsOrder(s[1..], x, k - 1);
      assert s[..k] == [s[0]] + s[1..][..k - 1];
      assert s[k + 1..] == s[1..][k..];
    }
  }

  lemma NoDupCons(x: string, s: seq<string>)
    requires x !in s && NoDup(s)
    ensures NoDup([x] + s)
  {
    forall i, j | 0 <= i < j < |[x] + s| ensures ([x] + s)[i] != ([x] + s)[j] {
      if i > 0 {
        assert ([x] + s)[i] == s[i - 1] && ([x] + s)[j] == s[j - 1];
      } else {
        assert ([x] + s)[j] == s[j - 1];
      }
    }
  }
}
