/** The string helpers of util/src/string.c. A C string is modelled by its
    characters up to (not including) the terminator, so a `CString` never
    contains NUL; a NULL pointer is `None`. Allocation failure is an oracle
    argument `allocOk`. */
module Strings {
  import opened Base

  const Nul: char := 0 as char
  const Cr: char := 13 as char

  /** A well-formed C string: no embedded terminator. */
  predicate IsCString(s: seq<char>)
  {
    forall i :: 0 <= i < |s| ==> s[i] != Nul
  }

  // ---------------------------------------------------------------------
  // malloc_string and cat_strings
  // ---------------------------------------------------------------------

  /** malloc_string: a fresh copy of `s`, or NULL when the allocation fails. */
  function MallocString(s: CString, allocOk: bool): (r: Option<CString>)
    requires IsCString(s)
    ensures r.Some? <==> allocOk
    ensures r.Some? ==> r.value == s && |r.value| == |s| && IsCString(r.value)
  {
    if allocOk then Some(s) else None
  }

  /** safe_strlen: the length of a string, zero for NULL. */
  function SafeLength(s: Option<CString>): nat
  {
    if s.Some? then |s.value| else 0
  }

  /** The sum of the argument lengths, NULL counting as zero. */
  function TotalLength(args: seq<Option<CString>>): nat
  {
    if args == [] then 0 else TotalLength(args[..|args| - 1]) + SafeLength(args[|args| - 1])
  }

  /** The arguments joined in order, NULL arguments contributing nothing. */
  function Concat(args: seq<Option<CString>>): CString
  {
    if args == [] then []
    else
      var last := args[|args| - 1];
      Concat(args[..|args| - 1]) + (if last.Some? then last.value else [])
  }

  /** The concatenation is as long as the sum of the argument lengths. */
  lemma {:induction false} ConcatLength(args: seq<Option<CString>>)
    ensures |Concat(args)| == TotalLength(args)
  {
    if args != [] {
      ConcatLength(args[..|args| - 1]);
    }
  }

  /** Every argument is NULL or a C string. */
  predicate AllCStrings(args: seq<Option<CString>>)
  {
    forall i :: 0 <= i < |args| && args[i].Some? ==> IsCString(args[i].value)
  }

  /** cat_strings: first sums the lengths, then allocates one buffer and
      appends every argument to it. Returns NULL when the allocation fails. */
  method CatStrings(args: seq<Option<CString>>, allocOk: bool) returns (r: Option<CString>)
    requires AllCStrings(args)
    ensures r.Some? <==> allocOk
    ensures r.Some? ==> r.value == Concat(args)
    ensures r.Some? ==> |r.value| == TotalLength(args)
    ensures r.Some? ==> IsCString(r.value)
  {
    var total: nat := 0;
    var i := 0;
    while i != |args|
      invariant i <= |args|
      invariant total == TotalLength(args[..i])
    {
      assert args[..i + 1][..i] == args[..i];
      total := total + SafeLength(args[i]);
      i := i + 1;
    }
    assert args[..|args|] == args;
    if !allocOk {
      return None;
    }
    var buffer: CString := [];
    i := 0;
    while i != |args|
      invariant i <= |args|
      invariant buffer == Concat(args[..i])
      invariant IsCString(buffer)
    {
      assert args[..i + 1][..i] == args[..i];
      if args[i].Some? {
        buffer := buffer + args[i].value;
      }
      i := i + 1;
    }
    ConcatLength(args);
    assert |buffer| == total;
    r := Some(buffer);
  }

  // ---------------------------------------------------------------------
  // strtok_r_portable
  // ---------------------------------------------------------------------

  /** The buffer being tokenised together with the save pointer. `next` is
      `Some(b)` when the save pointer points just before index `b` (so the
      next token starts at `b`) and `None` when it is NULL. */
  datatype Tokenizer = Tokenizer(buf: seq<char>, next: Option<nat>)

  /** Between calls the save pointer stays within the buffer, and the part
      of the buffer still to be scanned has not been written to. */
  predicate ValidTokenizer(t: Tokenizer)
  {
    t.next.Some? ==>
      && t.next.value <= |t.buf|
      && forall k :: t.next.value <= k < |t.buf| ==> t.buf[k] != Nul
  }

  /** strchr from index `from`: the first occurrence of `c` at or after
      `from`, if any. */
  function IndexFrom(s: seq<char>, c: char, from: nat): (r: Option<nat>)
    requires from <= |s|
    ensures r.Some? ==> from <= r.value < |s| && s[r.value] == c
    ensures r.Some? ==> forall k :: from <= k < r.value ==> s[k] != c
    ensures r.None? ==> forall k :: from <= k < |s| ==> s[k] != c
    decreases |s| - from
  {
    if from == |s| then None
    else if s[from] == c then Some(from)
    else IndexFrom(s, c, from + 1)
  }

  /** strtok_r_portable: `str` restarts tokenising on a new buffer when it
      is not NULL. The token starts just after the save pointer and runs to
      the next delimiter, which is overwritten with NUL; an empty token is
      reported as NULL, but the save pointer still moves past it. */
  function StrtokR(t: Tokenizer, str: Option<CString>, delim: char): (r: (Option<CString>, Tokenizer))
    requires delim != Nul
    requires str.Some? ==> IsCString(str.value)
    requires str.None? ==> ValidTokenizer(t)
    ensures ValidTokenizer(r.1)
    ensures r.0.Some? ==> |r.0.value| > 0 && delim !in r.0.value
  {
    var t0 := if str.Some? then Tokenizer(str.value, Some(0)) else t;
    if t0.next.None? then (None, t0)
    else
      var b := t0.next.value;
      match IndexFrom(t0.buf, delim, b)
      case None =>
        var token := t0.buf[b..];
        (if token == [] then None else Some(token), Tokenizer(t0.buf, None))
      case Some(e) =>
        var token := t0.buf[b..e];
        (if token == [] then None else Some(token), Tokenizer(t0.buf[e := Nul], Some(e + 1)))
  }

  /** Once the save pointer is NULL every further call returns NULL and
      changes nothing. */
  lemma ExhaustedStaysExhausted(t: Tokenizer, delim: char)
    requires delim != Nul && t.next.None?
    ensures StrtokR(t, None, delim) == (None, t)
  {
  }

  /** A step overwrites exactly the delimiter it found with NUL and leaves
      every other character of the buffer alone. */
  lemma StepOverwritesOnlyDelimiter(t: Tokenizer, delim: char)
    requires delim != Nul && ValidTokenizer(t) && t.next.Some?
    ensures var r := StrtokR(t, None, delim);
      && |r.1.buf| == |t.buf|
      && (forall k :: 0 <= k < |t.buf| && r.1.buf[k] != t.buf[k] ==> t.buf[k] == delim && r.1.buf[k] == Nul)
      && (r.1.next.Some? ==> r.1.next.value > t.next.value && t.buf[r.1.next.value - 1] == delim)
  {
  }

  /** The fields of `s` between delimiters: the reference definition of
      what tokenising should produce. There is always one more field than
      there are delimiters. */
  function Fields(s: seq<char>, delim: char): (r: seq<seq<char>>)
    ensures |r| >= 1
    decreases |s|
  {
    match IndexFrom(s, delim, 0)
    case None => [s]
    case Some(e) => [s[..e]] + Fields(s[e + 1..], delim)
  }

  /** Joining the fields with the delimiter gives back the string. */
  function Join(fields: seq<seq<char>>, delim: char): seq<char>
    requires |fields| >= 1
  {
    if |fields| == 1 then fields[0] else fields[0] + [delim] + Join(fields[1..], delim)
  }

  lemma {:induction false} JoinFields(s: seq<char>, delim: char)
    ensures Join(Fields(s, delim), delim) == s
    ensures forall i :: 0 <= i < |Fields(s, delim)| ==> delim !in Fields(s, delim)[i]
    decreases |s|
  {
    match IndexFrom(s, delim, 0)
    case None =>
    case Some(e) =>
      JoinFields(s[e + 1..], delim);
      assert s == s[..e] + [delim] + s[e + 1..];
      var rest := Fields(s[e + 1..], delim);
      assert Fields(s, delim) == [s[..e]] + rest;
      assert delim !in s[..e];
  }

  /** What the tokeniser reports for each field: NULL for an empty one. */
  function Reported(fields: seq<seq<char>>): seq<Option<CString>>
  {
    seq(|fields|, i requires 0 <= i < |fields| => if fields[i] == [] then None else Some(fields[i]))
  }

  /** The results of calling the tokeniser with NULL until the save pointer
      becomes NULL. */
  function Run(t: Tokenizer, delim: char): seq<Option<CString>>
    requires delim != Nul && ValidTokenizer(t)
    decreases if t.next.Some? then |t.buf| + 1 - t.next.value else 0
  {
    if t.next.None? then []
    else
      var r := StrtokR(t, None, delim);
      [r.0] + Run(r.1, delim)
  }

  /** Tokenising a string reports its fields in order, empty ones as NULL,
      and then stops. */
  lemma {:induction false} RunReportsFields(s: CString, delim: char)
    requires delim != Nul && IsCString(s)
    ensures Run(Tokenizer(s, Some(0)), delim) == Reported(Fields(s, delim))
  {
    RunFrom(s, 0, delim);
    assert s[0..] == s;
  }

  lemma {:induction false} RunFrom(buf: seq<char>, b: nat, delim: char)
    requires delim != Nul && b <= |buf|
    requires forall k :: b <= k < |buf| ==> buf[k] != Nul
    ensures Run(Tokenizer(buf, Some(b)), delim) == Reported(Fields(buf[b..], delim))
    decreases |buf| - b
  {
    IndexShift(buf, delim, b);
    var found := IndexFrom(buf, delim, b);
    if found.None? {
      LastField(buf, b, delim);
    } else {
      var e := found.value;
      OverwriteKeepsRest(buf, b, e, buf[e := Nul]);
      RunFrom(buf[e := Nul], e + 1, delim);
      InnerField(buf, b, e, delim);
    }
  }

  /** Overwriting the delimiter leaves the rest of the buffer unwritten. */
  lemma OverwriteKeepsRest(buf: seq<char>, b: nat, e: nat, written: seq<char>)
    requires b <= e < |buf| && written == buf[e := Nul]
    requires forall k :: b <= k < |buf| ==> buf[k] != Nul
    ensures |written| == |buf|
    ensures forall k :: e + 1 <= k < |written| ==> written[k] != Nul
  {
  }

  /** With no delimiter left, the rest of the buffer is the last field. */
  lemma LastField(buf: seq<char>, b: nat, delim: char)
    requires delim != Nul && b <= |buf|
    requires forall k :: b <= k < |buf| ==> buf[k] != Nul
    requires IndexFrom(buf, delim, b).None? && IndexFrom(buf[b..], delim, 0).None?
    ensures Run(Tokenizer(buf, Some(b)), delim) == Reported(Fields(buf[b..], delim))
  {
    var rest := buf[b..];
    assert Fields(rest, delim) == [rest];
    assert Run(Tokenizer(buf, None), delim) == [];
  }

  /** A delimiter at `e` ends the field that starts at `b`; the tokeniser
      then continues after it on the buffer with that delimiter overwritten. */
  lemma InnerField(buf: seq<char>, b: nat, e: nat, delim: char)
    requires delim != Nul && b <= e < |buf|
    requires forall k :: b <= k < |buf| ==> buf[k] != Nul
    requires IndexFrom(buf, delim, b) == Some(e) && IndexFrom(buf[b..], delim, 0) == Some(e - b)
    requires Run(Tokenizer(buf[e := Nul], Some(e + 1)), delim) == Reported(Fields(buf[e := Nul][e + 1..], delim))
    ensures Run(Tokenizer(buf, Some(b)), delim) == Reported(Fields(buf[b..], delim))
  {
    var token := buf[b..e];
    var later := Fields(buf[e := Nul][e + 1..], delim);
    FieldsAfterDelimiter(buf, b, e, delim);
    ReportedCons(token, later);
    RunStep(buf, b, e, delim);
  }

  lemma FieldsAfterDelimiter(buf: seq<char>, b: nat, e: nat, delim: char)
    requires b <= e < |buf|
    requires IndexFrom(buf[b..], delim, 0) == Some(e - b)
    ensures Fields(buf[b..], delim) == [buf[b..e]] + Fields(buf[e := Nul][e + 1..], delim)
  {
    var rest := buf[b..];
    assert buf[e := Nul][e + 1..] == rest[e - b + 1..];
    assert rest[..e - b] == buf[b..e];
  }

  lemma ReportedCons(x: seq<char>, fs: seq<seq<char>>)
    ensures Reported([x] + fs) == [if x == [] then None else Some(x)] + Reported(fs)
  {
  }

  lemma RunStep(buf: seq<char>, b: nat, e: nat, delim: char)
    requires delim != Nul && b <= e < |buf|
    requires forall k :: b <= k < |buf| ==> buf[k] != Nul
    requires IndexFrom(buf, delim, b) == Some(e)
    ensures Run(Tokenizer(buf, Some(b)), delim) ==
      [if buf[b..e] == [] then None else Some(buf[b..e])] + Run(Tokenizer(buf[e := Nul], Some(e + 1)), delim)
  {
    assert StrtokR(Tokenizer(buf, Some(b)), None, delim) ==
      (if buf[b..e] == [] then None else Some(buf[b..e]), Tokenizer(buf[e := Nul], Some(e + 1)));
  }

  /** Searching a suffix from its start is searching the whole from the
      suffix's offset. */
  lemma {:induction false} IndexShift(s: seq<char>, c: char, b: nat)
    requires b <= |s|
    ensures match IndexFrom(s, c, b)
      case None => IndexFrom(s[b..], c, 0).None?
      case Some(e) => IndexFrom(s[b..], c, 0) == Some(e - b)
  {
    match IndexFrom(s, c, b)
    case None =>
    case Some(e) =>
      assert s[b..][e - b] == c;
  }

  // ---------------------------------------------------------------------
  // crlf2lf
  // ---------------------------------------------------------------------

  /** crlf2lf as written: a CR is skipped and the character after it is
      copied unconditionally, so a second CR is kept, and a CR just before
      the terminator makes the loop copy the terminator and read past the
      end of the string (`None`). */
  function Crlf2LfAsWritten(s: CString): (r: Option<CString>)
    ensures r.Some? ==> |r.value| <= |s|
    ensures Cr !in s ==> r == Some(s)
    decreases |s|
  {
    if s == [] then Some([])
    else if s[0] == Cr then
      if |s| == 1 then None
      else
        var rest := Crlf2LfAsWritten(s[2..]);
        if rest.Some? then Some([s[1]] + rest.value) else None
    else
      var rest := Crlf2LfAsWritten(s[1..]);
      assert s == [s[0]] + s[1..];
      if rest.Some? then Some([s[0]] + rest.value) else None
  }

  /** The behaviour the loop's comment asks for: every CR removed, every
      other character kept in order. */
  function Crlf2Lf(s: CString): (r: CString)
    ensures |r| <= |s|
    ensures Cr !in r
    ensures forall c :: c != Cr ==> multiset(r)[c] == multiset(s)[c]
  {
    if s == [] then []
    else
      assert s == [s[0]] + s[1..];
      if s[0] == Cr then Crlf2Lf(s[1..])
      else [s[0]] + Crlf2Lf(s[1..])
  }

  /** CR removal works character by character: removing the CRs of a
      concatenation concatenates the two results, so the characters kept
      stay in their order. */
  lemma {:induction false} Crlf2LfAppend(a: CString, b: CString)
    ensures Crlf2Lf(a + b) == Crlf2Lf(a) + Crlf2Lf(b)
  {
    if a == [] {
      assert a + b == b;
    } else {
      assert (a + b)[0] == a[0] && (a + b)[1..] == a[1..] + b;
      Crlf2LfAppend(a[1..], b);
      if a[0] != Cr {
        assert [a[0]] + (Crlf2Lf(a[1..]) + Crlf2Lf(b)) == ([a[0]] + Crlf2Lf(a[1..])) + Crlf2Lf(b);
      }
    }
  }

  /** Removing CRs twice removes nothing more, and a string without CRs is
      left as it is. */
  lemma {:induction false} Crlf2LfIdempotent(s: CString)
    ensures Crlf2Lf(Crlf2Lf(s)) == Crlf2Lf(s)
    ensures Cr !in s ==> Crlf2Lf(s) == s
  {
    NoCrUnchanged(Crlf2Lf(s));
    if Cr !in s {
      NoCrUnchanged(s);
    }
  }

  lemma {:induction false} NoCrUnchanged(s: CString)
    requires Cr !in s
    ensures Crlf2Lf(s) == s
  {
    if s != [] {
      NoCrUnchanged(s[1..]);
    }
  }

  /** The inputs the loop handles as intended: every CR is followed by a
      character other than CR. */
  predicate CrFollowedByNonCr(s: CString)
  {
    forall i :: 0 <= i < |s| && s[i] == Cr ==> i + 1 < |s| && s[i + 1] != Cr
  }

  /** The loop as written agrees with CR removal exactly on the inputs in
      which every CR is followed by a character other than CR. */
  lemma {:induction false} Crlf2LfAsWrittenAgrees(s: CString)
    ensures Crlf2LfAsWritten(s) == Some(Crlf2Lf(s)) <==> CrFollowedByNonCr(s)
    decreases |s|
  {
    if s == [] {
    } else if s[0] == Cr {
      if |s| == 1 {
      } else if s[1] == Cr {
        var w := Crlf2LfAsWritten(s);
        assert w.Some? ==> w.value[0] == Cr;
        assert !CrFollowedByNonCr(s);
      } else {
        Crlf2LfAsWrittenAgrees(s[2..]);
        assert s[1..][0] == s[1] && s[1..][1..] == s[2..];
        assert Crlf2Lf(s) == [s[1]] + Crlf2Lf(s[2..]);
        PrependInjective(s[1], Crlf2LfAsWritten(s[2..]), Crlf2Lf(s[2..]));
        CrFollowedTail(s, 2);
      }
    } else {
      Crlf2LfAsWrittenAgrees(s[1..]);
      PrependInjective(s[0], Crlf2LfAsWritten(s[1..]), Crlf2Lf(s[1..]));
      CrFollowedTail(s, 1);
    }
  }

  /** Prepending one character to a loop result agrees with prepending it
      to the intended result exactly when the two agreed before. */
  lemma PrependInjective(c: char, w: Option<CString>, x: CString)
    ensures (if w.Some? then Some([c] + w.value) else None) == Some([c] + x) <==> w == Some(x)
  {
    if w.Some? && [c] + w.value == [c] + x {
      assert w.value == ([c] + w.value)[1..] == ([c] + x)[1..] == x;
    }
  }

  /** The condition holds of `s` exactly when it holds of the suffix after
      a prefix that ends with a non-CR character. */
  lemma CrFollowedTail(s: CString, n: nat)
    requires 1 <= n <= |s| && s[n - 1] != Cr
    requires forall i :: 0 <= i < n - 1 ==> s[i] == Cr ==> s[i + 1] != Cr
    ensures CrFollowedByNonCr(s) <==> CrFollowedByNonCr(s[n..])
  {
    if CrFollowedByNonCr(s[n..]) {
      forall i | 0 <= i < |s| && s[i] == Cr ensures i + 1 < |s| && s[i + 1] != Cr {
        if i >= n {
          assert s[n..][i - n] == Cr;
        }
      }
    }
  }

  /** "\r\r" keeps a CR, and "a\r" reads past the end of the string. */
  lemma Crlf2LfAsWrittenCounterexamples()
    ensures Crlf2LfAsWritten([Cr, Cr]) == Some([Cr])
    ensures Crlf2LfAsWritten(['a', Cr]).None?
    ensures Crlf2Lf([Cr, Cr]) == [] && Crlf2Lf(['a', Cr]) == ['a']
  {
    assert [Cr, Cr][2..] == [];
    assert Crlf2LfAsWritten([]) == Some([]);
    assert [Cr, Cr][1] == Cr && [Cr] + [] == [Cr];
    assert Crlf2LfAsWritten([Cr, Cr]) == Some([Cr] + []);
    assert ['a', Cr][1..] == [Cr];
    assert Crlf2LfAsWritten([Cr]).None?;
    assert [Cr, Cr][1..] == [Cr];
    assert [Cr][1..] == [];
  }

  // ---------------------------------------------------------------------
  // string_reverse
  // ---------------------------------------------------------------------

  /** The reference definition of reversal. */
  function Reversed(s: seq<char>): (r: seq<char>)
  {
    seq(|s|, i requires 0 <= i < |s| => s[|s| - 1 - i])
  }

  /** Reversing twice is the identity. */
  lemma ReverseTwice(s: seq<char>)
    ensures Reversed(Reversed(s)) == s
  {
  }

  /** string_reverse: swaps characters pairwise from both ends towards the
      middle. */
  method StringReverse(s: CString) returns (r: CString)
    ensures |r| == |s|
    ensures forall i :: 0 <= i < |s| ==> r[i] == s[|s| - 1 - i]
  {
    r := s;
    var lo := 0;
    var hi := |s| - 1;
    while lo < hi
      invariant 0 <= lo <= hi + 1 && lo + hi == |s| - 1 && hi < |s|
      invariant |r| == |s|
      invariant forall k :: 0 <= k < lo ==> r[k] == s[|s| - 1 - k]
      invariant forall k :: hi < k < |s| ==> r[k] == s[|s| - 1 - k]
      invariant forall k :: lo <= k <= hi ==> r[k] == s[k]
    {
      var tmp := r[lo];
      r := r[lo := r[hi]];
      r := r[hi := tmp];
      lo := lo + 1;
      hi := hi - 1;
    }
  }

  // ---------------------------------------------------------------------
  // string_tolower
  // ---------------------------------------------------------------------

  /** One character of string_tolower: codes strictly between 0x40 and
      0x5b ('A' to 'Z') are or-ed with 0x60, everything else is kept. */
  function LowerChar(c: char): char
  {
    if 0x40 < c as int < 0x5b then (((c as int) as bv8 | 0x60) as int) as char else c
  }

  lemma LowerCharMapsLetters(c: char)
    ensures 'A' <= c <= 'Z' ==> LowerChar(c) as int == c as int + 32
    ensures !('A' <= c <= 'Z') ==> LowerChar(c) == c
  {
    if 'A' <= c <= 'Z' {
      OrSetsLowerCaseBit((c as int) as bv8);
    }
  }

  /** For the codes of 'A' to 'Z' bit 5 is clear, so or-ing in 0x60 adds 32. */
  lemma OrSetsLowerCaseBit(b: bv8)
    requires 0x41 <= b <= 0x5a
    ensures (b | 0x60) as int == b as int + 32
  {
    assert b | 0x60 == b + 0x20;
  }

  /** string_tolower applied to every character of the string: each
      upper-case letter becomes its lower-case partner, 32 code points up,
      and every other character is kept. */
  function StringToLower(s: CString): (r: CString)
    ensures |r| == |s|
    ensures forall i :: 0 <= i < |s| && 'A' <= s[i] <= 'Z' ==> r[i] as int == s[i] as int + 32
    ensures forall i :: 0 <= i < |s| && !('A' <= s[i] <= 'Z') ==> r[i] == s[i]
  {
    LowerEach(s);
    seq(|s|, i requires 0 <= i < |s| => LowerChar(s[i]))
  }

  lemma LowerEach(s: CString)
    ensures forall i :: 0 <= i < |s| && 'A' <= s[i] <= 'Z' ==> LowerChar(s[i]) as int == s[i] as int + 32
    ensures forall i :: 0 <= i < |s| && !('A' <= s[i] <= 'Z') ==> LowerChar(s[i]) == s[i]
  {
    forall i | 0 <= i < |s| {
      LowerCharMapsLetters(s[i]);
    }
  }

  /** No upper-case letter is left, and lowering twice is lowering once. */
  lemma ToLowerSpec(s: CString)
    ensures forall i :: 0 <= i < |s| ==> !('A' <= StringToLower(s)[i] <= 'Z')
    ensures StringToLower(StringToLower(s)) == StringToLower(s)
  {
    forall i | 0 <= i < |s|
      ensures 'A' <= s[i] <= 'Z' ==> LowerChar(s[i]) as int == s[i] as int + 32
      ensures !('A' <= s[i] <= 'Z') ==> LowerChar(s[i]) == s[i]
      ensures LowerChar(LowerChar(s[i])) == LowerChar(s[i])
    {
      LowerCharMapsLetters(s[i]);
      LowerCharMapsLetters(LowerChar(s[i]));
    }
  }

  // ---------------------------------------------------------------------
  // strtowcs and wcstostr
  // ---------------------------------------------------------------------

  /** A narrow C string: every character is one byte and none is NUL. */
  predicate IsNarrow(s: CString)
  {
    forall i :: 0 <= i < |s| ==> 0 < s[i] as int < 0x100
  }

  /** A wide C string of 32-bit `wchar_t` values, none of them zero. */
  predicate IsWide(w: seq<int>)
  {
    forall i :: 0 <= i < |w| ==> -0x8000_0000 <= w[i] < 0x8000_0000 && w[i] != 0
  }

  /** (wchar_t)c for a signed `char`: bytes from 0x80 up are negative. */
  function WidenChar(c: char): int
    requires c as int < 0x100
  {
    if c as int < 0x80 then c as int else c as int - 0x100
  }

  /** (char)w: keeps the low byte (the value modulo 256). */
  function NarrowChar(w: int): char
  {
    (w % 0x100) as char
  }

  /** strtowcs: widens every character; NULL when the allocation fails. */
  function StrToWcs(s: CString, allocOk: bool): (r: Option<seq<int>>)
    requires IsNarrow(s)
    ensures r.Some? <==> allocOk
    ensures r.Some? ==> |r.value| == |s| && IsWide(r.value)
    ensures r.Some? ==> forall i :: 0 <= i < |s| ==>
              -0x80 <= r.value[i] < 0x80 && r.value[i] % 0x100 == s[i] as int
  {
    if allocOk then Some(seq(|s|, i requires 0 <= i < |s| => WidenChar(s[i]))) else None
  }

  /** wcstostr: narrows every wide character; NULL when the allocation
      fails. The buffer holds one character per wide character, but it is
      a well-formed C string only when no wide character has a zero low
      byte: otherwise C reads it as ending at the first such character. */
  function WcsToStr(w: seq<int>, allocOk: bool): (r: Option<CString>)
    requires IsWide(w)
    ensures r.Some? <==> allocOk
    ensures r.Some? ==> |r.value| == |w|
    ensures r.Some? ==> forall i :: 0 <= i < |w| ==> r.value[i] as int == w[i] % 0x100
    ensures r.Some? ==> (IsCString(r.value) <==> forall i :: 0 <= i < |w| ==> w[i] % 0x100 != 0)
  {
    if allocOk then Some(seq(|w|, i requires 0 <= i < |w| => NarrowChar(w[i]))) else None
  }

  /** Narrowing a widened string gives it back. */
  lemma NarrowAfterWiden(s: CString)
    requires IsNarrow(s)
    ensures var w := StrToWcs(s, true).value; WcsToStr(w, true) == Some(s)
  {
    var w := StrToWcs(s, true).value;
    forall i | 0 <= i < |s| ensures NarrowChar(w[i]) == s[i] {
      var c := s[i];
      assert w[i] == WidenChar(c);
      assert WidenChar(c) % 0x100 == c as int;
      assert NarrowChar(w[i]) == ((c as int) as char);
    }
    var n := WcsToStr(w, true).value;
    assert forall i :: 0 <= i < |s| ==> n[i] == NarrowChar(w[i]);
    assert n == s;
  }

  /** Widening a narrowed wide string gives it back exactly when every wide
      character fits in a signed `char`. */
  lemma WidenAfterNarrow(w: seq<int>)
    requires IsWide(w)
    ensures var s := WcsToStr(w, true).value;
      (IsNarrow(s) && StrToWcs(s, true) == Some(w)) <==>
      (forall i :: 0 <= i < |w| ==> -0x80 <= w[i] < 0x80 && w[i] % 0x100 != 0)
  {
    var s := WcsToStr(w, true).value;
    if forall i :: 0 <= i < |w| ==> -0x80 <= w[i] < 0x80 && w[i] % 0x100 != 0 {
      assert IsNarrow(s);
      assert StrToWcs(s, true).value == w;
    } else {
      var i :| 0 <= i < |w| && !(-0x80 <= w[i] < 0x80 && w[i] % 0x100 != 0);
    }
  }
}
