/**
 * Order facts about the socketxtreme event-completion list, stated on the
 * sequence of elements the list holds from head to tail.
 *
 * `Unlink` is what `list_del_init` does to that sequence: the element is
 * taken out wherever it stands, and nothing happens when it is not there
 * (a self-linked node unlinks from itself).
 */
module EcOrder {

  /** No element occurs twice. The model takes one element per socket, so
      this is the rule that a socket has at most one event in the queue. */
  ghost predicate Distinct<T>(s: seq<T>) {
    forall i, j :: 0 <= i < j < |s| ==> s[i] != s[j]
  }

  /** The sequence with every occurrence of `x` taken out, the others kept in order. */
  function Unlink<T(==)>(s: seq<T>, x: T): (r: seq<T>)
    ensures |r| <= |s|
    ensures forall k :: 0 <= k < |r| ==> r[k] in s && r[k] != x
    ensures forall k :: 0 <= k < |s| && s[k] != x ==> s[k] in r
    ensures x in s ==> |r| < |s|
  {
    if s == [] then []
    else if s[0] == x then Unlink(s[1..], x)
    else [s[0]] + Unlink(s[1..], x)
  }

  /** Removing an element that is not queued leaves the sequence as it is. */
  lemma {:induction false} UnlinkAbsent<T>(s: seq<T>, x: T)
    requires x !in s
    ensures Unlink(s, x) == s
  {
    if s != [] {
      assert s[0] != x;
      UnlinkAbsent(s[1..], x);
      assert [s[0]] + s[1..] == s;
    }
  }

  /** Removing the element at position `i` of a distinct sequence gives the
      elements before it followed by the elements after it: the relative
      order of everything else is kept. */
  lemma {:induction false} UnlinkAt<T>(s: seq<T>, i: nat)
    requires Distinct(s) && i < |s|
    ensures Unlink(s, s[i]) == s[..i] + s[i + 1..]
  {
    var x := s[i];
    if i == 0 {
      assert x !in s[1..] by { HeadNotInTail(s); }
      UnlinkAbsent(s[1..], x);
    } else {
      assert s[0] != x;
      assert Distinct(s[1..]) by { TailDistinct(s); }
      assert s[1..][i - 1] == x;
      UnlinkAt(s[1..], i - 1);
      assert Unlink(s, x) == [s[0]] + (s[1..][..i - 1] + s[1..][i..]);
      assert s[1..][..i - 1] == s[1..i] && s[1..][i..] == s[i + 1..];
      assert [s[0]] + s[1..i] == s[..i];
    }
  }

  /** The head of a distinct sequence does not occur again in its tail. */
  lemma HeadNotInTail<T>(s: seq<T>)
    requires Distinct(s) && s != []
    ensures s[0] !in s[1..]
  {
    forall k | 0 <= k < |s[1..]| ensures s[1..][k] != s[0] {
      assert s[1..][k] == s[k + 1];
    }
  }

  /** A second removal of the same element changes nothing. */
  lemma UnlinkIdempotent<T>(s: seq<T>, x: T)
    ensures Unlink(Unlink(s, x), x) == Unlink(s, x)
  {
    UnlinkAbsent(Unlink(s, x), x);
  }

  /** Removal keeps a distinct sequence distinct. */
  lemma {:induction false} UnlinkDistinct<T>(s: seq<T>, x: T)
    requires Distinct(s)
    ensures Distinct(Unlink(s, x))
  {
    if s != [] {
      assert Distinct(s[1..]) by { TailDistinct(s); }
      UnlinkDistinct(s[1..], x);
      if s[0] != x {
        var t := Unlink(s[1..], x);
        assert s[0] !in s[1..] by { HeadNotInTail(s); }
        assert s[0] !in t;
        forall a, b | 0 <= a < b < |[s[0]] + t| ensures ([s[0]] + t)[a] != ([s[0]] + t)[b] {
          if a == 0 {
            assert ([s[0]] + t)[b] == t[b - 1];
          } else {
            assert ([s[0]] + t)[a] == t[a - 1] && ([s[0]] + t)[b] == t[b - 1];
          }
        }
      }
    }
  }

  /** Appending an element that is not yet queued keeps the sequence distinct:
      the one-event-per-socket rule is preserved by a tail insertion. */
  lemma AppendDistinct<T>(s: seq<T>, x: T)
    requires Distinct(s) && x !in s
    ensures Distinct(s + [x])
  {
    forall a, b | 0 <= a < b < |s + [x]| ensures (s + [x])[a] != (s + [x])[b] {
      if b == |s| {
        assert (s + [x])[a] == s[a];
      } else {
        assert (s + [x])[a] == s[a] && (s + [x])[b] == s[b];
      }
    }
  }

  /** Taking the head off keeps the sequence distinct. */
  lemma TailDistinct<T>(s: seq<T>)
    requires Distinct(s) && s != []
    ensures Distinct(s[1..])
  {
    forall a, b | 0 <= a < b < |s[1..]| ensures s[1..][a] != s[1..][b] {
      assert s[1..][a] == s[a + 1] && s[1..][b] == s[b + 1];
    }
  }
}
