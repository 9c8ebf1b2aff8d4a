/**
 Shared vocabulary of the model: optional values, entity ids, and the few
 sequence operations the game's `Vec` handling relies on (membership,
 duplicate freedom, counting, and removal of the first occurrence) and the
 integer `min` and `max`.
 */
module Base {

  /** An optional value, standing for Rust's `Option`. */
  datatype Option<+T> = None | Some(value: T)

  /** An ECS entity id; Bevy hands out fresh ids on spawn. */
  type Entity = nat

  /** The larger of two integers (`max`). */
  function Max(a: int, b: int): int {
    if a < b then b else a
  }

  /** The smaller of two integers (`min`). */
  function Min(a: int, b: int): int {
    if a < b then a else b
  }

  /** Largest value of a Rust `u16`. */
  const U16_MAX: nat := 65535

  /** Largest value of a Rust `u32`. */
  const U32_MAX: nat := 4294967295

  /** Largest value of a Rust `u128`. */
  const U128_MAX: nat := 340282366920938463463374607431768211455

  /** No element occurs twice in `s`. */
  predicate NoDup<T(==)>(s: seq<T>) {
    forall i, j :: 0 <= i < j < |s| ==> s[i] != s[j]
  }

  /** Number of occurrences of `x` in `s`. */
  function Count<T(==)>(s: seq<T>, x: T): (n: nat)
    ensures n <= |s|
    ensures n == 0 <==> x !in s
  {
    if |s| == 0 then 0
    else (if s[0] == x then 1 else 0) + Count(s[1..], x)
  }

  /** Index of the first occurrence of `x` in `s`, as `iter().position` returns it. */
  function Position<T(==)>(s: seq<T>, x: T): (r: Option<nat>)
    ensures r.None? <==> x !in s
    ensures r.Some? ==> r.value < |s| && s[r.value] == x
    ensures r.Some? ==> forall j :: 0 <= j < r.value ==> s[j] != x
  {
    if |s| == 0 then None
    else if s[0] == x then Some(0)
    else match Position(s[1..], x)
      case None => None
      case Some(i) => Some(i + 1)
  }

  /** `s` with its element at index `i` removed, the others keeping their order (`Vec::remove`). */
  function RemoveAt<T>(s: seq<T>, i: nat): (r: seq<T>)
    requires i < |s|
    ensures |r| == |s| - 1
    ensures forall j :: 0 <= j < i ==> r[j] == s[j]
    ensures forall j :: i <= j < |r| ==> r[j] == s[j + 1]
  {
    s[..i] + s[i + 1..]
  }

  /** `s` with the first occurrence of `x` removed, or `s` itself if `x` is absent. */
  function RemoveFirst<T(==)>(s: seq<T>, x: T): (r: seq<T>)
    ensures x !in s ==> r == s
    ensures x in s ==> |r| == |s| - 1
  {
    if |s| == 0 then s
    else if s[0] == x then s[1..]
    else [s[0]] + RemoveFirst(s[1..], x)
  }

  /** Removing the first occurrence is `Vec::remove` at the index `iter().position` finds. */
  lemma {:induction false} RemoveFirstIsRemoveAtPosition<T>(s: seq<T>, x: T)
    requires x in s
    ensures Position(s, x).Some? && RemoveFirst(s, x) == RemoveAt(s, Position(s, x).value)
    decreases |s|
  {
    if s[0] != x {
      var t := s[1..];
      assert x in t;
      RemoveFirstIsRemoveAtPosition(t, x);
      var i := Position(t, x).value;
      assert Position(s, x) == Some(i + 1);
      assert RemoveAt(s, i + 1) == [s[0]] + RemoveAt(t, i);
    }
  }

  /** Removing the first occurrence lowers the count of `x` by one and leaves every other count alone. */
  lemma {:induction false} RemoveFirstCount<T>(s: seq<T>, x: T, y: T)
    ensures Count(RemoveFirst(s, x), y) == if x == y && x in s then Count(s, y) - 1 else Count(s, y)
    decreases |s|
  {
    if |s| > 0 && s[0] != x {
      RemoveFirstCount(s[1..], x, y);
      assert ([s[0]] + RemoveFirst(s[1..], x))[1..] == RemoveFirst(s[1..], x);
    }
  }

  /** Removal keeps every element other than `x` and never introduces new ones. */
  lemma RemoveFirstMembers<T>(s: seq<T>, x: T, y: T)
    ensures y in RemoveFirst(s, x) ==> y in s
    ensures y != x && y in s ==> y in RemoveFirst(s, x)
  {
    RemoveFirstCount(s, x, y);
  }

  /** A duplicate-free sequence has at most one occurrence of each element. */
  lemma {:induction false} NoDupCount<T>(s: seq<T>, x: T)
    requires NoDup(s)
    ensures Count(s, x) <= 1
    decreases |s|
  {
    if |s| > 0 {
      assert NoDup(s[1..]) by {
        forall i, j | 0 <= i < j < |s[1..]| ensures s[1..][i] != s[1..][j] {
          assert s[1..][i] == s[i + 1] && s[1..][j] == s[j + 1];
        }
      }
      NoDupCount(s[1..], x);
      if s[0] == x {
        assert x !in s[1..] by {
          forall k | 0 <= k < |s[1..]| ensures s[1..][k] != x {
            assert s[1..][k] == s[k + 1];
          }
        }
      }
    }
  }

  /** Counting is additive over concatenation. */
  lemma {:induction false} CountAppend<T>(s: seq<T>, t: seq<T>, x: T)
    ensures Count(s + t, x) == Count(s, x) + Count(t, x)
    decreases |s|
  {
    if |s| == 0 {
      assert s + t == t;
    } else {
      assert (s + t)[1..] == s[1..] + t;
      CountAppend(s[1..], t, x);
    }
  }

  /** Concatenating two duplicate-free sequences with no common element gives a duplicate-free sequence. */
  lemma NoDupAppend<T>(s: seq<T>, t: seq<T>)
    requires NoDup(s) && NoDup(t)
    requires forall x :: x in s ==> x !in t
    ensures NoDup(s + t)
  {
    forall i, j | 0 <= i < j < |s + t| ensures (s + t)[i] != (s + t)[j] {
      if j < |s| {
      } else if i >= |s| {
        assert (s + t)[i] == t[i - |s|] && (s + t)[j] == t[j - |s|];
      } else {
        assert (s + t)[i] in s && (s + t)[j] in t;
      }
    }
  }
}
