/** The cache / coalescing key of a page read: `review:<storeID>:<offset>:<limit>`
    as written with Go's `%d`, and its parse back by `strings.Split` on ':' and
    `strconv.Atoi` (internal/data/review.go, getData2 and getDataFromES). */
module KeyCodec {
  import opened Wrappers
  import opened GoInt
  import opened Entities

  const KeyIndex: string := "review"
  const Sep: char := ':'

  /** What the search index is asked for, as recovered from a key. The store
      filter stays a string: it is passed to the term query unparsed. */
  datatype SearchRequest = SearchRequest(index: string, storeFilter: string, from: int, size: int)

  // ---------------------------------------------------------------- decimals

  predicate IsDigit(c: char) {
    '0' <= c <= '9'
  }

  predicate AllDigits(s: string) {
    forall i | 0 <= i < |s| :: IsDigit(s[i])
  }

  function DigitChar(d: nat): (c: char)
    requires d < 10
    ensures IsDigit(c)
  {
    (48 + d) as char
  }

  function DigitValue(c: char): nat
    requires IsDigit(c)
  {
    (c as int) - 48
  }

  /** Decimal digits of `n`, most significant first, no leading zeros. */
  function NatDigits(n: nat): (s: string)
    ensures 1 <= |s| && AllDigits(s)
    decreases n
  {
    if n < 10 then [DigitChar(n)] else NatDigits(n / 10) + [DigitChar(n % 10)]
  }

  /** The number a string of decimal digits denotes. */
  function DigitsValue(s: string): nat
    requires AllDigits(s)
  {
    if |s| == 0 then 0 else DigitsValue(s[..|s| - 1]) * 10 + DigitValue(s[|s| - 1])
  }

  /** Length of the run of decimal digits at the start of `s`. */
  function DigitRun(s: string): (k: nat)
    ensures k <= |s| && AllDigits(s[..k])
    ensures k < |s| ==> !IsDigit(s[k])
  {
    if |s| == 0 || !IsDigit(s[0]) then 0
    else
      var k := 1 + DigitRun(s[1..]);
      assert s[..k] == [s[0]] + s[1..][..k - 1];
      k
  }

  /** `s` without its leading sign, if it has one. */
  function Unsigned(s: string): string
    requires 1 <= |s|
  {
    if s[0] == '-' || s[0] == '+' then s[1..] else s
  }

  /** An optional sign followed by at least one decimal digit and nothing else. */
  predicate IsSignedDecimal(s: string) {
    1 <= |s| && 1 <= |Unsigned(s)| && AllDigits(Unsigned(s))
  }

  /** The integer a signed decimal denotes. */
  function SignedValue(s: string): int
    requires IsSignedDecimal(s)
  {
    var magnitude: int := DigitsValue(Unsigned(s));
    if s[0] == '-' then -magnitude else magnitude
  }

  /** `strconv.Atoi` on a 64-bit platform. It accepts exactly the signed decimals
      whose value is an int64. The digits are scanned left to right: a range
      error as soon as the digits read so far exceed uint64, a syntax error at
      the first non-digit, and a range error for an in-uint64 value outside
      int64. Digit prefixes only grow, so "some prefix exceeds uint64" is "the
      whole leading digit run exceeds uint64". */
  function Atoi(s: string): (r: Result<int, Error>)
    ensures r.Success? <==> IsSignedDecimal(s) && IsInt64(SignedValue(s))
    ensures r.Success? ==> r.value == SignedValue(s)
    ensures (IsSignedDecimal(s) && !IsInt64(SignedValue(s))) ==> r == Failure(NumRange)
    ensures r.Failure? ==> r.error == NumSyntax || r.error == NumRange
    ensures |s| == 0 ==> r == Failure(NumSyntax)
    ensures (1 <= |s| && !IsSignedDecimal(s)) ==>
              r == Failure(if DigitsValue(Unsigned(s)[..DigitRun(Unsigned(s))]) > MaxUint64
                           then NumRange else NumSyntax)
  {
    if |s| == 0 then Failure(NumSyntax)
    else
      var digits := Unsigned(s);
      var k := DigitRun(digits);
      if |digits| == 0 then Failure(NumSyntax)
      else if DigitsValue(digits[..k]) > MaxUint64 then
        assert IsSignedDecimal(s) ==> digits[..k] == digits;
        Failure(NumRange)
      else if k < |digits| then Failure(NumSyntax)
      else
        assert digits[..k] == digits;
        if IsInt64(SignedValue(s)) then Success(SignedValue(s)) else Failure(NumRange)
  }

  lemma {:induction false} DigitsRoundTrip(n: nat)
    ensures DigitsValue(NatDigits(n)) == n
    decreases n
  {
    if n >= 10 {
      var s := NatDigits(n);
      assert s[..|s| - 1] == NatDigits(n / 10);
      DigitsRoundTrip(n / 10);
    }
  }

  /** Atoi reads back the digits of a non-negative int64. */
  lemma AtoiNatDigits(n: nat)
    requires n <= MaxInt64
    ensures Atoi(NatDigits(n)) == Success(n)
  {
    var d := NatDigits(n);
    assert IsDigit(d[0]);
    assert Unsigned(d) == d;
    DigitsRoundTrip(n);
    assert SignedValue(d) == n;
  }

  /** Atoi reads back '-' followed by the digits of a negative int64's magnitude. */
  lemma AtoiNegDigits(n: nat)
    requires 0 < n <= -MinInt64
    ensures Atoi("-" + NatDigits(n)) == Success(-(n as int))
  {
    var d := NatDigits(n);
    var s := "-" + d;
    assert s[0] == '-';
    assert Unsigned(s) == d;
    DigitsRoundTrip(n);
    assert SignedValue(s) == -(n as int);
  }

  /** `%d` formatting of an integer: a '-' exactly for negatives, never the key
      separator, and Atoi reads every int64 back. */
  function Itoa(x: int): (s: string)
    ensures 1 <= |s| && Sep !in s
    ensures s[0] == '-' <==> x < 0
    ensures IsInt64(x) ==> Atoi(s) == Success(x)
  {
    if x < 0 then
      var d := NatDigits(-x);
      assert IsInt64(x) ==> Atoi("-" + d) == Success(x) by {
        if IsInt64(x) {
          AtoiNegDigits(-x);
        }
      }
      assert IsDigit(d[0]);
      "-" + d
    else
      var d := NatDigits(x);
      assert IsInt64(x) ==> Atoi(d) == Success(x) by {
        if IsInt64(x) {
          AtoiNatDigits(x);
        }
      }
      assert IsDigit(d[0]);
      d
  }

  /** A run of digits that overflows uint64 is a range error even when a
      non-digit follows it, as in "99999999999999999999x". */
  lemma OverflowBeforeJunkIsRange(run: string, c: char)
    requires 1 <= |run| && AllDigits(run) && DigitsValue(run) > MaxUint64
    requires !IsDigit(c) && run[0] != '-' && run[0] != '+'
    ensures Atoi(run + [c]) == Failure(NumRange)
  {
    var s := run + [c];
    assert Unsigned(s) == s;
    assert DigitRun(s) == |run| by {
      DigitRunOfRun(run, c);
    }
    assert s[..|run|] == run;
  }

  lemma {:induction false} DigitRunOfRun(run: string, c: char)
    requires AllDigits(run) && !IsDigit(c)
    ensures DigitRun(run + [c]) == |run|
  {
    if |run| > 0 {
      assert (run + [c])[1..] == run[1..] + [c];
      DigitRunOfRun(run[1..], c);
    }
  }

  /** The concrete case: twenty nines followed by 'x'. */
  lemma TwentyNinesThenJunk()
    ensures Atoi(NatDigits(MaxUint64 + 1) + "x") == Failure(NumRange)
  {
    DigitsRoundTrip(MaxUint64 + 1);
    OverflowBeforeJunkIsRange(NatDigits(MaxUint64 + 1), 'x');
  }

  /** Distinct int64 values print differently. */
  lemma ItoaInjective(x: int, y: int)
    requires IsInt64(x) && IsInt64(y)
    requires Itoa(x) == Itoa(y)
    ensures x == y
  {
    assert Atoi(Itoa(x)) == Success(x);
  }

  // ---------------------------------------------------------------- splitting

  /** Number of occurrences of `c` in `s`. */
  function Count(s: string, c: char): nat {
    if |s| == 0 then 0 else (if s[0] == c then 1 else 0) + Count(s[1..], c)
  }

  lemma {:induction false} CountAppend(a: string, b: string, c: char)
    ensures Count(a + b, c) == Count(a, c) + Count(b, c)
  {
    if |a| > 0 {
      assert (a + b)[1..] == a[1..] + b;
      CountAppend(a[1..], b, c);
    } else {
      assert a + b == b;
    }
  }

  lemma {:induction false} CountAbsent(s: string, c: char)
    requires c !in s
    ensures Count(s, c) == 0
  {
    if |s| > 0 {
      assert c !in s[1..];
      CountAbsent(s[1..], c);
    }
  }

  function FirstIndex(s: string, c: char): (i: nat)
    requires c in s
    ensures i < |s| && s[i] == c && c !in s[..i]
  {
    if s[0] == c then 0
    else
      assert c in s[1..];
      var j := FirstIndex(s[1..], c);
      assert s[..j + 1] == [s[0]] + s[1..][..j];
      j + 1
  }

  /** `strings.Split(s, string(c))`: the pieces between occurrences of `c`. */
  function Split(s: string, c: char): (parts: seq<string>)
    ensures 1 <= |parts|
    ensures forall i | 0 <= i < |parts| :: c !in parts[i]
    decreases |s|
  {
    if c !in s then [s]
    else
      var i := FirstIndex(s, c);
      [s[..i]] + Split(s[i + 1..], c)
  }

  /** `strings.Join(parts, string(c))`. */
  function Join(parts: seq<string>, c: char): string
    requires 1 <= |parts|
  {
    if |parts| == 1 then parts[0] else parts[0] + [c] + Join(parts[1..], c)
  }

  /** Split yields one more piece than there are separators. */
  lemma {:induction false} SplitLength(s: string, c: char)
    ensures |Split(s, c)| == Count(s, c) + 1
    decreases |s|
  {
    if c !in s {
      CountAbsent(s, c);
    } else {
      var i := FirstIndex(s, c);
      assert s == s[..i] + [c] + s[i + 1..];
      CountAppend(s[..i] + [c], s[i + 1..], c);
      CountAppend(s[..i], [c], c);
      CountAbsent(s[..i], c);
      assert Count([c], c) == 1;
      SplitLength(s[i + 1..], c);
    }
  }

  /** Joining the pieces of a split gives the string back. */
  lemma {:induction false} JoinSplit(s: string, c: char)
    ensures Join(Split(s, c), c) == s
    decreases |s|
  {
    if c in s {
      var i := FirstIndex(s, c);
      var rest := Split(s[i + 1..], c);
      assert Split(s, c) == [s[..i]] + rest;
      JoinSplit(s[i + 1..], c);
      assert Join(Split(s, c), c) == s[..i] + [c] + Join(rest, c);
      assert s == s[..i] + [c] + s[i + 1..];
    }
  }

  /** Splitting a join of separator-free pieces gives the pieces back. */
  lemma {:induction false} SplitJoin(parts: seq<string>, c: char)
    requires 1 <= |parts|
    requires forall k | 0 <= k < |parts| :: c !in parts[k]
    ensures Split(Join(parts, c), c) == parts
    decreases |parts|
  {
    if |parts| > 1 {
      var p0 := parts[0];
      var rest := Join(parts[1..], c);
      var s := Join(parts, c);
      assert s == p0 + [c] + rest;
      assert s[|p0|] == c;
      var i := FirstIndex(s, c);
      assert i == |p0|;
      assert s[..i] == p0;
      assert s[i + 1..] == rest;
      SplitJoin(parts[1..], c);
    }
  }

  // ---------------------------------------------------------------- the key

  /** `fmt.Sprintf("review:%d:%d:%d", storeID, offset, limit)`. */
  function FormatKey(storeId: int, offset: int, limit: int): (key: string)
    ensures Split(key, Sep) == [KeyIndex, Itoa(storeId), Itoa(offset), Itoa(limit)]
    ensures Count(key, Sep) == 3
  {
    var parts := [KeyIndex, Itoa(storeId), Itoa(offset), Itoa(limit)];
    var key := KeyIndex + [Sep] + Itoa(storeId) + [Sep] + Itoa(offset) + [Sep] + Itoa(limit);
    assert Join(parts[3..], Sep) == Itoa(limit);
    assert Join(parts[2..], Sep) == Itoa(offset) + [Sep] + Itoa(limit);
    assert Join(parts[1..], Sep) == Itoa(storeId) + [Sep] + Itoa(offset) + [Sep] + Itoa(limit);
    assert key == Join(parts, Sep);
    SplitJoin(parts, Sep);
    SplitLength(key, Sep);
    key
  }

  /** The parse at the head of getDataFromES: fewer than four pieces is an
      "invalid key"; pieces 2 and 3 must pass Atoi; later pieces are ignored. */
  function ParseKey(key: string): (r: Result<SearchRequest, Error>)
    ensures r == Failure(InvalidKey) <==> Count(key, Sep) < 3
    ensures r.Success? ==> Count(key, Sep) >= 3 && IsInt64(r.value.from) && IsInt64(r.value.size)
    ensures r.Failure? ==> r.error in {InvalidKey, NumSyntax, NumRange}
  {
    SplitLength(key, Sep);
    var values := Split(key, Sep);
    if |values| < 4 then Failure(InvalidKey)
    else
      var offset :- Atoi(values[2]);
      var limit :- Atoi(values[3]);
      Success(SearchRequest(values[0], values[1], offset, limit))
  }

  /** Parsing a formatted key recovers the index name, the store id's decimal
      text, and the original offset and limit. */
  lemma KeyRoundTrip(storeId: int, offset: int, limit: int)
    requires IsInt64(storeId) && IsInt64(offset) && IsInt64(limit)
    ensures ParseKey(FormatKey(storeId, offset, limit))
            == Success(SearchRequest(KeyIndex, Itoa(storeId), offset, limit))
    ensures Atoi(Itoa(storeId)) == Success(storeId)
  {
  }

  /** Distinct pages get distinct keys, so neither the cache nor the coalescing
      group can confuse two different reads. */
  lemma FormatKeyInjective(s1: int, o1: int, l1: int, s2: int, o2: int, l2: int)
    requires IsInt64(s1) && IsInt64(o1) && IsInt64(l1)
    requires IsInt64(s2) && IsInt64(o2) && IsInt64(l2)
    requires FormatKey(s1, o1, l1) == FormatKey(s2, o2, l2)
    ensures s1 == s2 && o1 == o2 && l1 == l2
  {
    KeyRoundTrip(s1, o1, l1);
    KeyRoundTrip(s2, o2, l2);
    ItoaInjective(s1, s2);
  }
}
