/**
 * The byte-slice and string helpers of Go's standard library that
 * servers/g_net.go relies on (bytes.Index, bytes.IndexByte, bytes.Split,
 * bytes.TrimSpace, bytes.ToLower, bytes.EqualFold, strconv.Atoi,
 * fmt's %d verb, strings.TrimRight), written as functions over byte strings.
 */
module ByteStrings {
  import opened Wrappers

  /**
   * One octet, written as the char with the same code so that ASCII text can
   * be given as a string literal. Octets above 0x7F appear only as
   * '\U{80}'..'\U{FF}'; nothing here depends on the range being closed.
   */
  type byte = char

  type Bytes = seq<byte>

  const CRLF: Bytes := "\r\n"

  const Int64Min: int := -0x8000_0000_0000_0000
  const Int64Max: int := 0x7FFF_FFFF_FFFF_FFFF

  // ---------------------------------------------------------------------------
  // Searching

  /** A CRLF starts at position i of s. */
  predicate CRLFAt(s: Bytes, i: int) {
    0 <= i && i + 1 < |s| && s[i] == '\r' && s[i + 1] == '\n'
  }

  /** No CRLF starts before position n of s. */
  predicate NoCRLFBefore(s: Bytes, n: int) {
    forall i :: 0 <= i < n ==> !CRLFAt(s, i)
  }

  predicate NoCRLF(s: Bytes) {
    NoCRLFBefore(s, |s|)
  }

  /** bytes.Index(s, "\r\n"): the position of the first CRLF, or -1. */
  function IndexCRLF(s: Bytes): (r: int)
    ensures -1 <= r < |s|
    ensures r >= 0 ==> CRLFAt(s, r) && NoCRLFBefore(s, r)
    ensures r < 0 ==> NoCRLF(s)
  {
    if |s| < 2 then -1
    else if s[0] == '\r' && s[1] == '\n' then 0
    else
      var j := IndexCRLF(s[1..]);
      assert forall i :: 1 <= i < |s| ==> CRLFAt(s, i) == CRLFAt(s[1..], i - 1);
      if j < 0 then -1 else j + 1
  }

  /** bytes.IndexByte(s, b): the position of the first b, or -1. */
  function IndexByte(s: Bytes, b: byte): (r: int)
    ensures -1 <= r < |s|
    ensures r >= 0 ==> s[r] == b && b !in s[..r]
    ensures r < 0 ==> b !in s
  {
    if |s| == 0 then -1
    else if s[0] == b then 0
    else
      var j := IndexByte(s[1..], b);
      if j < 0 then -1
      else
        assert s[..j + 1] == [s[0]] + s[1..][..j];
        j + 1
  }

  /** The number of occurrences of b in s. */
  function Count(s: Bytes, b: byte): (n: nat)
    ensures n == 0 <==> b !in s
    ensures n <= |s|
  {
    if s == [] then 0 else (if s[0] == b then 1 else 0) + Count(s[1..], b)
  }

  lemma {:induction false} CountConcat(s: Bytes, t: Bytes, b: byte)
    ensures Count(s + t, b) == Count(s, b) + Count(t, b)
  {
    if s == [] {
      assert s + t == t;
    } else {
      assert (s + t)[1..] == s[1..] + t;
      CountConcat(s[1..], t, b);
    }
  }

  /** Count of a string cut at one occurrence of b. */
  lemma CountAround(s: Bytes, i: nat, b: byte)
    requires i < |s| && s[i] == b && b !in s[..i]
    ensures Count(s, b) == 1 + Count(s[i + 1..], b)
  {
    assert s == s[..i] + ([b] + s[i + 1..]);
    CountConcat(s[..i], [b] + s[i + 1..], b);
    CountConcat([b], s[i + 1..], b);
  }

  /** A string without a carriage return holds no CRLF. */
  lemma NoCRLFWithoutCR(s: Bytes)
    requires '\r' !in s
    ensures NoCRLF(s)
  {
    assert forall i :: 0 <= i < |s| ==> s[i] != '\r';
  }

  lemma ConcatAssoc(a: Bytes, b: Bytes, c: Bytes)
    ensures (a + b) + c == a + (b + c)
  {
  }

  // ---------------------------------------------------------------------------
  // Splitting

  /** The pieces of a split, glued back together with the separator between neighbours. */
  function Join(parts: seq<Bytes>, sep: byte): Bytes
    requires parts != []
  {
    if |parts| == 1 then parts[0] else parts[0] + [sep] + Join(parts[1..], sep)
  }

  /**
   * bytes.Split(s, []byte{sep}): the maximal sep-free pieces between
   * occurrences of sep; one more piece than there are separators.
   */
  function Split(s: Bytes, sep: byte): (parts: seq<Bytes>)
    ensures |parts| == Count(s, sep) + 1
    decreases |s|
  {
    var i := IndexByte(s, sep);
    if i < 0 then [s]
    else
      CountAround(s, i, sep);
      [s[..i]] + Split(s[i + 1..], sep)
  }

  /** The pieces of a split hold no separator. */
  lemma {:induction false} SplitPieces(s: Bytes, sep: byte)
    ensures forall p <- Split(s, sep) :: sep !in p
    decreases |s|
  {
    var i := IndexByte(s, sep);
    if i >= 0 {
      SplitPieces(s[i + 1..], sep);
      assert Split(s, sep) == [s[..i]] + Split(s[i + 1..], sep);
    }
  }

  /** Joining the pieces of a split gives back the string. */
  lemma {:induction false} JoinSplitJoined(s: Bytes, sep: byte)
    ensures Join(Split(s, sep), sep) == s
    decreases |s|
  {
    var i := IndexByte(s, sep);
    if i >= 0 {
      var head, rest := s[..i], s[i + 1..];
      var tail := Split(rest, sep);
      JoinSplitJoined(rest, sep);
      assert Split(s, sep) == [head] + tail;
      JoinCons(head, tail, sep);
      assert s == head + [sep] + rest;
    }
  }

  lemma JoinCons(head: Bytes, tail: seq<Bytes>, sep: byte)
    requires tail != []
    ensures Join([head] + tail, sep) == head + [sep] + Join(tail, sep)
  {
    assert ([head] + tail)[1..] == tail;
  }

  /** Splitting undoes joining pieces that do not contain the separator. */
  lemma {:induction false} SplitJoin(parts: seq<Bytes>, sep: byte)
    requires parts != []
    requires forall p <- parts :: sep !in p
    ensures Split(Join(parts, sep), sep) == parts
  {
    if |parts| > 1 {
      assert parts[0] in parts;
      JoinedAtFirst(parts[0], Join(parts[1..], sep), sep);
      SplitJoin(parts[1..], sep);
    }
  }

  /** In p + [sep] + rest with no sep in p, the first sep is the one after p. */
  lemma JoinedAtFirst(p: Bytes, rest: Bytes, sep: byte)
    requires sep !in p
    ensures var s := p + [sep] + rest;
      IndexByte(s, sep) == |p| && s[..|p|] == p && s[|p| + 1..] == rest
  {
    var s := p + [sep] + rest;
    assert s[|p|] == sep;
    assert s[..|p|] == p;
    assert forall k :: 0 <= k < |p| ==> s[k] == p[k];
    assert s[|p| + 1..] == rest;
  }


  // ---------------------------------------------------------------------------
  // Trimming and case

  /** The bytes bytes.TrimSpace removes on its ASCII path: \t \n \v \f \r and space. */
  predicate IsSpace(c: byte) {
    c == ' ' || c == '\t' || c == '\n' || c == '\U{0B}' || c == '\U{0C}' || c == '\r'
  }

  /** s without its leading white space. */
  function TrimLeft(s: Bytes): (r: Bytes)
    ensures |r| <= |s|
    ensures r == [] || !IsSpace(r[0])
    ensures r != [] ==> r[|r| - 1] == s[|s| - 1]
  {
    if s != [] && IsSpace(s[0]) then TrimLeft(s[1..]) else s
  }

  /** TrimLeft removes exactly the leading run of white space. */
  lemma {:induction false} TrimLeftRemovesSpace(s: Bytes)
    ensures var r := TrimLeft(s);
      r == s[|s| - |r|..] && forall i :: 0 <= i < |s| - |r| ==> IsSpace(s[i])
  {
    if s != [] && IsSpace(s[0]) {
      TrimLeftRemovesSpace(s[1..]);
    }
  }

  /** s without its trailing white space. */
  function TrimRight(s: Bytes): (r: Bytes)
    ensures |r| <= |s|
    ensures r == [] || !IsSpace(r[|r| - 1])
    ensures r != [] ==> r[0] == s[0]
  {
    if s != [] && IsSpace(s[|s| - 1]) then TrimRight(s[..|s| - 1]) else s
  }

  /** TrimRight removes exactly the trailing run of white space. */
  lemma {:induction false} TrimRightRemovesSpace(s: Bytes)
    ensures var r := TrimRight(s);
      r == s[..|r|] && forall i :: |r| <= i < |s| ==> IsSpace(s[i])
  {
    if s != [] && IsSpace(s[|s| - 1]) {
      TrimRightRemovesSpace(s[..|s| - 1]);
    }
  }

  /** Every byte is ASCII (below 0x80): the bytes on which Go's ToLower and TrimSpace agree with the ones here. */
  predicate Ascii(s: Bytes) {
    forall i :: 0 <= i < |s| ==> s[i] < '\U{80}'
  }

  /** s has no white space at either end. */
  predicate Trimmed(s: Bytes) {
    s == [] || (!IsSpace(s[0]) && !IsSpace(s[|s| - 1]))
  }

  /** bytes.TrimSpace(s): s without white space at either end. */
  function TrimSpace(s: Bytes): (r: Bytes)
    ensures Trimmed(r)
    ensures Trimmed(s) ==> r == s
    ensures |r| <= |s|
  {
    TrimRight(TrimLeft(s))
  }

  /** TrimSpace keeps a run of s, lead bytes in, and removes only white space around it. */
  lemma TrimSpaceRemovesSpace(s: Bytes) returns (lead: nat)
    ensures var r := TrimSpace(s);
      && lead + |r| <= |s| && r == s[lead..lead + |r|]
      && forall i :: 0 <= i < |s| && (i < lead || lead + |r| <= i) ==> IsSpace(s[i])
  {
    var l := TrimLeft(s);
    TrimLeftRemovesSpace(s);
    TrimRightRemovesSpace(l);
    lead := |s| - |l|;
    var r := TrimRight(l);
    assert r == l[..|r|] == s[lead..lead + |r|];
    forall i | lead + |r| <= i < |s|
      ensures IsSpace(s[i])
    {
      assert s[i] == l[i - lead];
    }
  }

  /** One leading space makes no difference to TrimSpace. */
  lemma TrimSpaceLeadingSpace(s: Bytes)
    ensures TrimSpace(" " + s) == TrimSpace(s)
  {
    assert (" " + s)[1..] == s;
  }

  predicate IsUpper(c: byte) {
    'A' <= c <= 'Z'
  }

  /** The ASCII lower-case of c. */
  function LowerByte(c: byte): (r: byte)
    ensures !IsUpper(r)
  {
    if IsUpper(c) then (c as int + 32) as char else c
  }

  /** bytes.ToLower(s) on ASCII input: every upper-case letter replaced by its lower-case one. */
  function ToLower(s: Bytes): (r: Bytes)
    ensures |r| == |s|
  {
    seq(|s|, i requires 0 <= i < |s| => LowerByte(s[i]))
  }

  /** ToLower maps each upper-case letter to the letter 32 places on ('A' to 'a') and changes nothing else. */
  lemma ToLowerChanges(s: Bytes)
    ensures forall i :: 0 <= i < |s| ==> !IsUpper(ToLower(s)[i]) && (IsUpper(s[i]) || ToLower(s)[i] == s[i])
    ensures forall i :: 0 <= i < |s| && IsUpper(s[i]) ==> ToLower(s)[i] as int == s[i] as int + 32
  {
  }

  /**
   * bytes.EqualFold(v, "close"). Go compares under Unicode simple case
   * folding; the only non-ASCII rune that folds onto a letter of "close" is
   * U+017F LATIN SMALL LETTER LONG S (UTF-8 bytes C5 BF), which folds to 's'.
   */
  predicate EqualFoldClose(v: Bytes) {
    && |v| >= 5
    && (v[0] == 'c' || v[0] == 'C')
    && (v[1] == 'l' || v[1] == 'L')
    && (v[2] == 'o' || v[2] == 'O')
    && (|| (|v| == 5 && (v[3] == 's' || v[3] == 'S') && (v[4] == 'e' || v[4] == 'E'))
        || (|v| == 6 && v[3] == '\U{C5}' && v[4] == '\U{BF}' && (v[5] == 'e' || v[5] == 'E')))
  }

  /** On ASCII bytes, EqualFold against "close" is lower-casing to "close". */
  lemma EqualFoldCloseAscii(v: Bytes)
    requires Ascii(v)
    ensures EqualFoldClose(v) <==> ToLower(v) == "close"
  {
    if |v| == 5 {
      var l := ToLower(v);
      if EqualFoldClose(v) {
        assert l == [l[0], l[1], l[2], l[3], l[4]];
      }
      if l == "close" {
        assert l[0] == 'c' && l[1] == 'l' && l[2] == 'o' && l[3] == 's' && l[4] == 'e';
      }
    } else {
      assert |ToLower(v)| != |"close"|;
    }
  }

  /** strings.TrimRight(s, string(c)) for a single byte c: s without its trailing run of c. */
  function TrimTrailing(s: Bytes, c: byte): (r: Bytes)
    ensures |r| <= |s| && forall i :: 0 <= i < |r| ==> r[i] == s[i]
    ensures r == [] || r[|r| - 1] != c
    ensures forall i :: |r| <= i < |s| ==> s[i] == c
  {
    if s != [] && s[|s| - 1] == c then TrimTrailing(s[..|s| - 1], c) else s
  }

  // ---------------------------------------------------------------------------
  // Decimal numbers

  predicate IsDigit(c: byte) {
    '0' <= c <= '9'
  }

  predicate AllDigits(s: Bytes) {
    forall i :: 0 <= i < |s| ==> IsDigit(s[i])
  }

  /** The value of a string of decimal digits, most significant first. */
  function DigitsValue(s: Bytes): nat
    requires AllDigits(s)
  {
    if s == [] then 0 else DigitsValue(s[..|s| - 1]) * 10 + (s[|s| - 1] as int - '0' as int)
  }

  function DigitChar(d: nat): (c: byte)
    requires d < 10
  {
    ('0' as int + d) as char
  }

  /** The shortest decimal spelling of n: no leading zero except in "0" itself. */
  function Decimal(n: nat): (r: Bytes)
    ensures r != [] && AllDigits(r)
    ensures DigitsValue(r) == n
    ensures |r| == 1 || r[0] != '0'
    ensures n > 0 ==> r[0] != '0' 
  {
    if n < 10 then [DigitChar(n)]
    else
      var r := Decimal(n / 10) + [DigitChar(n % 10)];
      assert r[..|r| - 1] == Decimal(n / 10);
      r
  }

  /** fmt.Sprintf("%d", n) and strconv.Itoa(n). */
  function Itoa(n: int): (r: Bytes)
    ensures r != [] && (n >= 0 <==> r[0] != '-')
    ensures n >= 0 ==> IsDigit(r[0]) && IsDigit(r[|r| - 1])
    ensures '\r' !in r && '\n' !in r
  {
    if n < 0 then "-" + Decimal(-n) else Decimal(n)
  }

  /**
   * strconv.Atoi(s) on a 64-bit platform: an optional sign, then one or more
   * decimal digits, and a value that fits in int64; anything else is an error.
   */
  function Atoi(s: Bytes): (r: Option<int>)
    ensures r.Some? ==> Int64Min <= r.value <= Int64Max
    ensures r.Some? ==> s != [] && (r.value < 0 ==> s[0] == '-')
  {
    var signed := |s| > 0 && (s[0] == '+' || s[0] == '-');
    var digits := if signed then s[1..] else s;
    if digits == [] || !AllDigits(digits) then None
    else
      var v: int := if signed && s[0] == '-' then -(DigitsValue(digits) as int) else DigitsValue(digits);
      if Int64Min <= v <= Int64Max then Some(v) else None
  }

  /** A sign ("", "+" or "-") followed by digits is read to their value, negated after '-', when it fits in int64. */
  lemma AtoiAccepts(sign: Bytes, digits: Bytes)
    requires sign == [] || sign == "+" || sign == "-"
    requires digits != [] && AllDigits(digits)
    ensures var v := if sign == "-" then -(DigitsValue(digits) as int) else DigitsValue(digits) as int;
      Atoi(sign + digits) == if Int64Min <= v <= Int64Max then Some(v) else None
  {
    assert IsDigit(digits[0]);
    if sign == [] {
      assert sign + digits == digits;
    } else {
      assert (sign + digits)[0] == sign[0] && (sign + digits)[1..] == digits;
    }
  }

  /** A byte other than a digit, except a sign in front, makes Atoi fail. */
  lemma AtoiRejectsNonDigit(s: Bytes, i: nat)
    requires i < |s| && !IsDigit(s[i])
    requires i == 0 ==> s[0] != '+' && s[0] != '-'
    ensures Atoi(s) == None
  {
    if 0 < i && (s[0] == '+' || s[0] == '-') {
      assert s[1..][i - 1] == s[i];
    }
  }

  /** A string without any digit makes Atoi fail: the empty string and a lone sign among them. */
  lemma AtoiRejectsNoDigits(s: Bytes)
    requires forall i :: 0 <= i < |s| ==> !IsDigit(s[i])
    ensures Atoi(s) == None
  {
    if |s| > 1 {
      AtoiRejectsNonDigit(s, 1);
    }
  }

  /** Atoi reads back what Itoa writes, for every int64. */
  lemma AtoiItoa(n: int)
    requires Int64Min <= n <= Int64Max
    ensures Atoi(Itoa(n)) == Some(n)
  {
    if n < 0 {
      assert Itoa(n)[1..] == Decimal(-n);
    }
  }
}
