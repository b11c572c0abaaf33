/** Shared vocabulary: optional values (a C pointer that may be NULL),
    32-bit counts and duplicate-free sequences. */
module Base {

  /** A value that may be absent; `None` plays the part of a NULL return. */
  datatype Option<+T> = None | Some(value: T)

  /** A C `uint32_t`; only its range matters where it is used. */
  newtype Uint32 = x: int | 0 <= x < 0x1_0000_0000

  /** C strings are modelled by their contents, without the terminator. */
  type CString = seq<char>

  /** No element occurs twice. */
  predicate NoDuplicates<T(==)>(s: seq<T>)
  {
    forall i, j :: 0 <= i < j < |s| ==> s[i] != s[j]
  }

  /** Number of occurrences of `x` in `s`. */
  function Count<T(==)>(s: seq<T>, x: T): nat
  {
    if s == [] then 0
    else Count(s[..|s| - 1], x) + (if s[|s| - 1] == x then 1 else 0)
  }

  /** An element occurs at most once in a duplicate-free sequence, and
      exactly once when it is present. */
  lemma {:induction false} CountNoDuplicates<T>(s: seq<T>, x: T)
    requires NoDuplicates(s)
    ensures Count(s, x) == if x in s then 1 else 0
  {
    if s != [] {
      var init := s[..|s| - 1];
      assert NoDuplicates(init);
      CountNoDuplicates(init, x);
      if s[|s| - 1] == x {
        assert x !in init by {
          forall i | 0 <= i < |init| ensures init[i] != x {
            assert s[i] != s[|s| - 1];
          }
        }
      } else {
        assert x in s <==> x in init by {
          if x in s {
            var k :| 0 <= k < |s| && s[k] == x;
            assert k < |s| - 1 && init[k] == x;
          }
        }
      }
    }
  }
}
