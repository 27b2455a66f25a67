/** `detail::DefaultParser<T>`: the built-in conversions of one field to a
    `bool`, a `char`, a `std::string` or an integer type. */
module DefaultParser {
  import opened Common

  /** A fundamental integer type, given by its limits
      `std::numeric_limits<T>::min()` and `max()`; it is signed when its
      minimum is negative. */
  datatype IntType = IntType(min: int, max: int)
  {
    predicate Valid()
    {
      min <= 0 < max
    }

    predicate Signed()
    {
      min < 0
    }

    /** `v` is representable in the type. */
    predicate InRange(v: int)
    {
      min <= v <= max
    }
  }

  const Int8: IntType := IntType(-0x80, 0x7F)
  const Int16: IntType := IntType(-0x8000, 0x7FFF)
  const Int32: IntType := IntType(-0x8000_0000, 0x7FFF_FFFF)
  const Int64: IntType := IntType(-0x8000_0000_0000_0000, 0x7FFF_FFFF_FFFF_FFFF)
  const UInt8: IntType := IntType(0, 0xFF)
  const UInt16: IntType := IntType(0, 0xFFFF)
  const UInt32: IntType := IntType(0, 0xFFFF_FFFF)
  const UInt64: IntType := IntType(0, 0xFFFF_FFFF_FFFF_FFFF)

  /** The type a field is read into: the built-in ones, or a user type
      that only a custom parser knows, identified by name. */
  datatype FieldType = BoolT | CharT | StringT | IntT(w: IntType) | CustomT(name: string)

  /** A parsed value; a user type's value carries its name and parts. */
  datatype Val = BoolV(b: bool) | CharV(c: char) | StrV(s: string) | IntV(i: int) | CustomV(name: string, parts: seq<Val>)

  /** `v` is a value of type `t`. */
  predicate HasType(v: Val, t: FieldType)
  {
    match t
    case BoolT => v.BoolV?
    case CharT => v.CharV?
    case StringT => v.StrV?
    case IntT(w) => v.IntV? && w.InRange(v.i)
    case CustomT(n) => v.CustomV? && v.name == n
  }

  /** A `DefaultParser<T>` specialization exists (the `DefaultParseable`
      concept): every built-in type; never a user type. */
  predicate HasDefault(t: FieldType)
  {
    match t
    case IntT(w) => w.Valid()
    case CustomT(_) => false
    case _ => true
  }

  // ---------------------------------------------------------------- char

  /** `DefaultParser<char>::parse` as written: the first byte of the view,
      which exists only for a non-empty view. */
  function ParseCharAsWritten(s: string): (r: Result<char>)
    requires |s| > 0
    ensures r.HasValue() && r.value == s[0]
  {
    Value(s[0])
  }

  /** `DefaultParser<char>::parse` with the empty view rejected instead of
      read out of bounds. */
  function ParseChar(s: string): (r: Result<char>)
    ensures r.HasValue() <==> |s| > 0
    ensures r.HasValue() ==> r.value == s[0]
    ensures !r.HasValue() ==> r.error == InvalidInput
  {
    if |s| == 0 then Failure(InvalidInput) else Value(s[0])
  }

  /** Wherever the written parser is defined, the corrected one agrees. */
  lemma ParseCharAgrees(s: string)
    requires |s| > 0
    ensures ParseChar(s) == ParseCharAsWritten(s)
  {
  }

  // -------------------------------------------------------------- string

  /** `DefaultParser<std::string>::parse`: an owned copy of the view; it
      never fails. */
  function ParseString(s: string): (r: Result<string>)
    ensures r.HasValue() && r.value == s
  {
    Value(s)
  }

  // ---------------------------------------------------------------- bool

  /** `std::tolower` in the "C" locale. */
  function ToLower(c: char): (l: char)
    ensures 'A' <= c <= 'Z' ==> l as int == c as int + 32
    ensures !('A' <= c <= 'Z') ==> l == c
  {
    if 'A' <= c <= 'Z' then (c as int + 32) as char else c
  }

  /** Every character lowered. */
  function Lower(s: string): (t: string)
    ensures |t| == |s|
    ensures forall k | 0 <= k < |s| :: t[k] == ToLower(s[k])
  {
    seq(|s|, k requires 0 <= k < |s| => ToLower(s[k]))
  }

  /** The zeroed 6-byte buffer after its first `min(|s|, 6)` bytes are
      replaced by the lowered characters of `s`. */
  function Window(s: string): (w: seq<char>)
    ensures |w| == 6
  {
    seq(6, k requires 0 <= k < 6 => if k < |s| then ToLower(s[k]) else NUL)
  }

  /** `Buf{ "false" }` and `Buf{ "true" }`: the literals NUL-padded to 6. */
  const FalseLit: seq<char> := "false" + [NUL]
  const TrueLit: seq<char> := "true" + [NUL, NUL]

  /** What `DefaultParser<bool>::parse` decides from the window: a leading
      '0' or '1' decides the value whatever follows, and the only error is
      InvalidInput. */
  function BoolValue(s: string): (r: Result<bool>)
    ensures |s| > 0 && (s[0] == '0' || s[0] == '1') ==> r == Value(s[0] == '1')
    ensures r.Failure? ==> r.error == InvalidInput
  {
    var w := Window(s);
    if w[0] == '0' then Value(false)
    else if w[0] == '1' then Value(true)
    else if w == FalseLit then Value(false)
    else if w == TrueLit then Value(true)
    else Failure(InvalidInput)
  }

  /** `DefaultParser<bool>::parse`: lowers up to six bytes into a zeroed
      buffer, then tests a leading '0' or '1', then the two literals. */
  method ParseBool(s: string) returns (r: Result<bool>)
    ensures r == BoolValue(s)
  {
    var buf := new char[6](_ => NUL);
    var size := if |s| < 6 then |s| else 6;
    for i := 0 to size
      invariant forall k | 0 <= k < 6 :: buf[k] == if k < i then ToLower(s[k]) else NUL
    {
      buf[i] := ToLower(s[i]);
    }
    assert buf[..] == Window(s);
    if buf[0] == '0' {
      return Value(false);
    } else if buf[0] == '1' {
      return Value(true);
    }
    if buf[..] == FalseLit {
      return Value(false);
    } else if buf[..] == TrueLit {
      return Value(true);
    }
    return Failure(InvalidInput);
  }

  /** The window equals a literal exactly when the NUL-free field, lowered,
      equals the literal's word. */
  lemma {:induction false} WindowIsWord(s: string, word: string)
    requires NUL !in s && 0 < |word| < 6 && NUL !in word
    ensures Window(s) == word + seq(6 - |word|, _ => NUL) <==> Lower(s) == word
  {
    var pad := word + seq(6 - |word|, _ => NUL);
    if Lower(s) == word {
      forall k | 0 <= k < 6 ensures Window(s)[k] == pad[k] {
        if k < |s| {
          assert Window(s)[k] == Lower(s)[k];
        }
      }
      assert Window(s) == pad;
    }
    if |s| < |word| {
      assert Window(s)[|s|] == NUL && pad[|s|] == word[|s|];
    }
    if |s| > |word| {
      assert Window(s)[|word|] == ToLower(s[|word|]) && pad[|word|] == NUL;
    }
    if Window(s) == pad {
      forall k | 0 <= k < |s| ensures Lower(s)[k] == word[k] {
        assert Window(s)[k] == pad[k];
      }
    }
  }

  /** On a NUL-free field the parser is true exactly for a leading '1' or a
      case-insensitive "true", and false exactly for a leading '0' or a
      case-insensitive "false". */
  lemma BoolWords(s: string)
    requires NUL !in s
    ensures BoolValue(s) == Value(true) <==> (|s| > 0 && s[0] == '1') || Lower(s) == "true"
    ensures BoolValue(s) == Value(false) <==> (|s| > 0 && s[0] == '0') || Lower(s) == "false"
  {
    WindowIsWord(s, "true");
    WindowIsWord(s, "false");
    assert "true" + seq(2, _ => NUL) == TrueLit;
    assert "false" + seq(1, _ => NUL) == FalseLit;
    if |s| > 0 {
      assert Window(s)[0] == ToLower(s[0]);
      if Lower(s) == "true" || Lower(s) == "false" {
        assert Lower(s)[0] == ToLower(s[0]);
      }
    } else {
      assert Window(s)[0] == NUL;
      assert Lower(s) == [];
    }
  }

  /** Case is ignored, and a leading digit wins over what follows. */
  lemma BoolAccepts()
    ensures BoolValue("TRUE") == Value(true)
    ensures BoolValue("False") == Value(false)
    ensures BoolValue("10") == Value(true)
  {
    BoolWords("TRUE");
    BoolWords("False");
  }

  /** Other words, the empty field, a longer word and a word followed by its
      line's '\n' are rejected. */
  lemma BoolRejects()
    ensures BoolValue("yes") == Failure(InvalidInput)
    ensures BoolValue("") == Failure(InvalidInput)
    ensures BoolValue("truex") == Failure(InvalidInput)
    ensures BoolValue("true\n") == Failure(InvalidInput)
  {
    BoolWords("yes");
    BoolWords("");
    BoolWords("truex");
    assert Lower("truex")[4] == 'x';
    BoolWords("true\n");
    assert Lower("true\n")[4] == '\n';
  }

  // ------------------------------------------------------------- integer

  predicate IsDigit(c: char)
  {
    '0' <= c <= '9'
  }

  function DigitValue(c: char): (v: nat)
    requires IsDigit(c)
    ensures v < 10
  {
    c as int - '0' as int
  }

  function Digit(v: nat): (c: char)
    requires v < 10
    ensures IsDigit(c) && DigitValue(c) == v
  {
    ('0' as int + v) as char
  }

  /** The length of the run of decimal digits starting at `i`. */
  function DigitRun(s: string, i: nat): (n: nat)
    requires i <= |s|
    ensures i + n <= |s|
    ensures forall x | i <= x < i + n :: IsDigit(s[x])
    ensures i + n < |s| ==> !IsDigit(s[i + n])
    decreases |s| - i
  {
    if i < |s| && IsDigit(s[i]) then 1 + DigitRun(s, i + 1) else 0
  }

  /** The value of a string of decimal digits. */
  function Decimal(ds: string): nat
    requires forall k | 0 <= k < |ds| :: IsDigit(ds[k])
  {
    if |ds| == 0 then 0 else 10 * Decimal(ds[..|ds| - 1]) + DigitValue(ds[|ds| - 1])
  }

  /** `std::errc` as `from_chars` reports it. */
  datatype Errc = NoError | InvalidArgument | ResultOutOfRange

  /** What `from_chars` hands back: the end position as an index, the error
      code, and the value it stored (None: `value` left unmodified). */
  datatype Conversion = Conversion(ptr: nat, ec: Errc, stored: Option<int>)

  /** The index where the digits start: after a '-' that only a signed
      type admits. */
  function DigitsStart(w: IntType, s: string): (i: nat)
    ensures i <= |s|
  {
    if w.Signed() && |s| > 0 && s[0] == '-' then 1 else 0
  }

  /** Base-10 `std::from_chars` for an integer type (section 22.13.3 of
      ISO C++ 2023): the longest prefix of the form `-? digit+`, the sign
      allowed only for a signed type and no leading whitespace or '+'. No
      match: `invalid_argument`, end position at the start, value untouched.
      A match whose value the type cannot hold: `result_out_of_range`, end
      position past the match, value untouched. */
  function FromChars(w: IntType, s: string): (c: Conversion)
    ensures c.ec == NoError <==> c.stored.Some?
    ensures c.stored.Some? ==> w.InRange(c.stored.value)
    ensures c.ptr <= |s|
  {
    var i := DigitsStart(w, s);
    var n := DigitRun(s, i);
    if n == 0 then Conversion(0, InvalidArgument, None)
    else
      var mag := Decimal(s[i..i + n]);
      var v: int := if i == 1 then -(mag as int) else mag;
      if w.InRange(v) then Conversion(i + n, NoError, Some(v))
      else Conversion(i + n, ResultOutOfRange, None)
  }

  /** The integer `DefaultParser<T>::parse`: the error code of `from_chars`
      decides, the end position is not looked at. */
  function ParseInteger(w: IntType, s: string): (r: Result<int>)
    ensures r.HasValue() ==> w.InRange(r.value)
    ensures !r.HasValue() ==> IsParseError(r.error)
  {
    var c := FromChars(w, s);
    if c.ec == InvalidArgument then Failure(InvalidInput)
    else if c.ec == ResultOutOfRange then Failure(OutOfRange)
    else Value(c.stored.value)
  }

  /** A syntax failure is exactly a field with no digit where the digits
      must start. */
  lemma IntegerInvalid(w: IntType, s: string)
    ensures ParseInteger(w, s) == Failure(InvalidInput) <==> DigitRun(s, DigitsStart(w, s)) == 0
  {
  }

  /** The decimal text of a natural number. */
  function ShowNat(m: nat): (t: string)
    ensures |t| > 0
    ensures forall k | 0 <= k < |t| :: IsDigit(t[k])
  {
    if m < 10 then [Digit(m)] else ShowNat(m / 10) + [Digit(m % 10)]
  }

  /** The decimal text of an integer, '-' first when negative. */
  function Show(v: int): string
  {
    if v < 0 then "-" + ShowNat(-v) else ShowNat(v)
  }

  lemma {:induction false} DecimalShowNat(m: nat)
    ensures Decimal(ShowNat(m)) == m
  {
    var t := ShowNat(m);
    if m >= 10 {
      DecimalShowNat(m / 10);
      assert t[..|t| - 1] == ShowNat(m / 10);
    }
  }

  /** The digit run of a number's text followed by a non-digit. */
  lemma {:induction false} DigitRunOf(ds: string, t: string, i: nat)
    requires i <= |ds|
    requires forall k | 0 <= k < |ds| :: IsDigit(ds[k])
    requires t == [] || !IsDigit(t[0])
    ensures DigitRun(ds + t, i) == |ds| - i
    decreases |ds| - i
  {
    var s := ds + t;
    if i < |ds| {
      assert s[i] == ds[i];
      DigitRunOf(ds, t, i + 1);
    } else if t != [] {
      assert s[i] == t[0];
    }
  }

  /** The digits and the value `from_chars` reads off `Show(v) + t` for a
      non-negative `v`. */
  lemma ParseShownNat(w: IntType, v: nat, t: string)
    requires t == [] || !IsDigit(t[0])
    ensures var s := Show(v) + t;
            && DigitsStart(w, s) == 0
            && DigitRun(s, 0) == |ShowNat(v)|
            && Decimal(s[0..DigitRun(s, 0)]) == v
  {
    var ds := ShowNat(v);
    var s := ds + t;
    DecimalShowNat(v);
    assert s[0] == ds[0];
    DigitRunOf(ds, t, 0);
    assert s[0..|ds|] == ds;
  }

  /** The same for a negative `v` in a signed type: the digits start after
      the '-'. */
  lemma ParseShownNeg(w: IntType, v: int, t: string)
    requires v < 0 && w.Signed()
    requires t == [] || !IsDigit(t[0])
    ensures var s := Show(v) + t;
            && DigitsStart(w, s) == 1
            && DigitRun(s, 1) == |ShowNat(-v)|
            && Decimal(s[1..1 + DigitRun(s, 1)]) == -v
  {
    var ds := ShowNat(-v);
    var u := ds + t;
    var s := Show(v) + t;
    assert s == "-" + u;
    assert s[1..] == u;
    DecimalShowNat(-v);
    DigitRunOf(ds, t, 0);
    DigitRunShift(s, u, 1);
    assert s[1..1 + |ds|] == ds;
  }

  /** A run counted behind a one-character prefix. */
  lemma {:induction false} DigitRunShift(s: string, u: string, i: nat)
    requires 1 <= i <= |s| && s[1..] == u
    ensures DigitRun(s, i) == DigitRun(u, i - 1)
    decreases |s| - i
  {
    if i < |s| {
      assert s[i] == u[i - 1];
      DigitRunShift(s, u, i + 1);
    }
  }

  /** The round trip: a representable value written in decimal parses back
      to itself, whatever non-digit bytes follow (a '\n', text, nothing),
      because the end position is ignored. */
  lemma IntegerRoundTrip(w: IntType, v: int, t: string)
    requires w.InRange(v)
    requires t == [] || !IsDigit(t[0])
    ensures ParseInteger(w, Show(v) + t) == Value(v)
  {
    if v < 0 {
      ParseShownNeg(w, v, t);
    } else {
      ParseShownNat(w, v, t);
    }
  }

  /** An integer written in decimal that the type cannot hold is OutOfRange,
      provided its sign is admitted. */
  lemma IntegerOutOfRange(w: IntType, v: int, t: string)
    requires !w.InRange(v) && (v >= 0 || w.Signed())
    requires t == [] || !IsDigit(t[0])
    ensures ParseInteger(w, Show(v) + t) == Failure(OutOfRange)
  {
    if v < 0 {
      ParseShownNeg(w, v, t);
    } else {
      ParseShownNat(w, v, t);
    }
  }

  /** Trailing bytes after the number are accepted. */
  lemma IntegerTrailing()
    ensures ParseInteger(Int32, "12\n") == Value(12)
    ensures ParseInteger(Int32, "12abc") == Value(12)
  {
    assert DigitRun("12\n", 0) == 2;
    assert DigitRun("12abc", 0) == 2;
    assert Decimal("12") == 12 by {
      assert "12"[..1] == "1";
    }
  }

  /** The least 8-bit signed value is accepted. */
  lemma IntegerLeast()
    ensures ParseInteger(Int8, "-128") == Value(-128)
  {
    assert DigitRun("-128", 1) == 3;
    assert "-128"[1..4] == "128";
    assert Decimal("128") == 128 by {
      assert "128"[..2] == "12" && "12"[..1] == "1";
    }
  }

  /** One past the greatest 8-bit value is OutOfRange, signed or not. */
  lemma IntegerPastMax()
    ensures ParseInteger(Int8, "128") == Failure(OutOfRange)
    ensures ParseInteger(UInt8, "256") == Failure(OutOfRange)
  {
    assert DigitRun("128", 0) == 3;
    assert DigitRun("256", 0) == 3;
    assert "128"[0..3] == "128";
    assert "256"[0..3] == "256";
    assert Decimal("128") == 128 by {
      assert "128"[..2] == "12" && "12"[..1] == "1";
    }
    assert Decimal("256") == 256 by {
      assert "256"[..2] == "25" && "25"[..1] == "2";
    }
  }

  /** No '-' for an unsigned type, no '+', no leading whitespace, and at
      least one digit. */
  lemma IntegerSyntax()
    ensures ParseInteger(UInt8, "-1") == Failure(InvalidInput)
    ensures ParseInteger(Int32, "+1") == Failure(InvalidInput)
    ensures ParseInteger(Int32, " 1") == Failure(InvalidInput)
    ensures ParseInteger(Int32, "") == Failure(InvalidInput)
  {
  }

  // ------------------------------------------------------------ dispatch

  /** `DefaultParser<T>{}.parse(str)` for the built-in type `t`: a value
      of that type or a parse error, never a stream error. */
  function DefaultParse(t: FieldType, s: string): (r: Result<Val>)
    requires HasDefault(t)
    ensures r.HasValue() ==> HasType(r.value, t)
    ensures !r.HasValue() ==> IsParseError(r.error)
  {
    match t
    case BoolT => Map(BoolValue(s), (b: bool) => BoolV(b))
    case CharT => Map(ParseChar(s), (c: char) => CharV(c))
    case StringT => Map(ParseString(s), (x: string) => StrV(x))
    case IntT(w) => Map(ParseInteger(w, s), (i: int) => IntV(i))
  }
}
