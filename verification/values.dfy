/** The text of a value and its coercion to a column type (row.go:39-53, 224-267). Conversions
    between texts and floating-point numbers are library calls, and parameters here. */
module Values {
  import opened Bytes
  import opened Wrappers
  import opened Rows

  datatype ColumnType = IntegerType | TextType | RealType | BlobType | NullType

  /** strconv and the casts on floating-point numbers, by their IEEE 754 bits. */
  datatype Floats = Floats(format: uint64 -> Bytes, parse: Bytes -> Option<uint64>,
                           ofInt: int64 -> uint64, toInt: uint64 -> int64)

  // ----- Decimal integers -----

  const ZERO: byte := 48
  const MINUS: byte := 45
  const PLUS: byte := 43
  /** NULL */
  const NULL_TEXT: Bytes := [78, 85, 76, 76]
  /** <blob: */
  const BLOB_TEXT: Bytes := [60, 98, 108, 111, 98, 58]
  /** > */
  const CLOSE: byte := 62

  predicate IsDigit(b: byte) { ZERO <= b < ZERO + 10 }

  function Decimal(n: nat): (s: Bytes)
    ensures |s| > 0 && forall b :: b in s ==> IsDigit(b)
  {
    if n < 10 then [ZERO + n] else Decimal(n / 10) + [ZERO + n % 10]
  }

  /** strconv.FormatInt(i, 10) */
  function FormatInt(i: int64): Bytes { if i < 0 then [MINUS] + Decimal(Magnitude(i)) else Decimal(i) }

  function Magnitude(i: int64): nat { if i < 0 then 0 - i else i }

  /** The number a run of digits spells; None if there is none or another byte. */
  function Undecimal(s: Bytes): Option<nat> {
    if s == [] || !IsDigit(s[|s| - 1]) then None
    else if |s| == 1 then Some(s[0] - ZERO)
    else match Undecimal(s[..|s| - 1])
      case None => None
      case Some(n) => Some(n * 10 + (s[|s| - 1] - ZERO))
  }

  /** strconv.ParseInt(s, 10, 64): an optional sign, digits, and a number in range. */
  function ParseInt(s: Bytes): Option<int64> {
    var signed := s != [] && (s[0] == MINUS || s[0] == PLUS);
    match Undecimal(if signed then s[1..] else s)
    case None => None
    case Some(n) =>
      var i := if signed && s[0] == MINUS then 0 - n else n;
      if -0x8000_0000_0000_0000 <= i < 0x8000_0000_0000_0000 then Some(i) else None
  }

  lemma {:induction false} UndecimalDecimal(n: nat)
    ensures Undecimal(Decimal(n)) == Some(n)
  {
    if n >= 10 {
      UndecimalDecimal(n / 10);
      assert Decimal(n)[..|Decimal(n)| - 1] == Decimal(n / 10);
    }
  }

  /** Reading an integer's spelling gives it back, so different integers spell differently. */
  lemma ParseFormat(i: int64)
    ensures ParseInt(FormatInt(i)) == Some(i)
  {
    var n := Magnitude(i);
    UndecimalDecimal(n);
    assert Decimal(n)[0] in Decimal(n);
    if i < 0 {
      assert FormatInt(i)[1..] == Decimal(n);
    }
  }

  /** The spelling of an integer: a minus for the negative ones alone, and digits, no more of them
      than it takes. */
  lemma FormatShape(i: int64)
    ensures exists digits: Bytes ::
              && FormatInt(i) == (if i < 0 then [MINUS] else []) + digits
              && digits != [] && (forall b :: b in digits ==> IsDigit(b)) && (|digits| > 1 ==> digits[0] != ZERO)
  {
    var digits := Decimal(Magnitude(i));
    NoLeadingZero(Magnitude(i));
    assert FormatInt(i) == (if i < 0 then [MINUS] else []) + digits;
    assert |digits| > 1 ==> Magnitude(i) >= 10;
  }

  lemma {:induction false} NoLeadingZero(n: nat)
    ensures Decimal(n)[0] == ZERO <==> n == 0
  {
    if n >= 10 {
      NoLeadingZero(n / 10);
    }
  }

  /** What is read as an integer: digits that may have a sign in front, of a number in range; a minus
      negates it. Leading zeros do not matter. */
  lemma ParseIntExact(s: Bytes, i: int64)
    ensures ParseInt(s) == Some(i) <==>
            || SpellsNumber(s, i)
            || (s != [] && s[0] == PLUS && SpellsNumber(s[1..], i))
            || (s != [] && s[0] == MINUS && SpellsNumber(s[1..], -(i as int)))
  {
    OnlyDigits(s);
    assert s != [] ==> s[0] in s;
  }

  /** Digits that spell n. */
  predicate SpellsNumber(s: Bytes, n: int) { Undecimal(s).Some? && Undecimal(s).value == n }

  lemma {:induction false} OnlyDigits(s: Bytes)
    ensures Undecimal(s).Some? <==> s != [] && forall b :: b in s ==> IsDigit(b)
  {
    if |s| > 1 {
      var n := |s| - 1;
      OnlyDigits(s[..n]);
      assert s == s[..n] + [s[n]];
      assert forall b :: b in s <==> b in s[..n] || b == s[n];
    } else if |s| == 1 {
      assert s[0] in s;
    }
  }

  function Pow10(k: nat): nat { if k == 0 then 1 else 10 * Pow10(k - 1) }

  lemma {:induction false} DecimalShort(n: nat, k: nat)
    requires 1 <= k && n < Pow10(k)
    ensures |Decimal(n)| <= k
  {
    if n >= 10 {
      assert Pow10(0) == 1;
      DecimalShort(n / 10, k - 1);
    }
  }

  lemma Pow10Twenty()
    ensures Pow10(20) == 100_000_000_000_000_000_000
  {
    assert Pow10(5) == 100_000;
    assert Pow10(10) == 10_000_000_000;
    assert Pow10(15) == 1_000_000_000_000_000;
  }

  // ----- Texts -----

  /** Value.String */
  function String(v: Value, fl: Floats): Bytes {
    match v
    case Null => NULL_TEXT
    case Integer(i) => FormatInt(i)
    case Real(bits) => fl.format(bits)
    case Text(t) => t
    case Blob(b) => BLOB_TEXT + Decimal(|b|) + [CLOSE]
  }

  /** Different values that spell alike: blobs of one length, and a text that is the spelling of
      the other value. */
  predicate SpellAlike(v: Value, w: Value, fl: Floats) {
    || v == w
    || (v.Blob? && w.Blob? && |v.blob| == |w.blob|)
    || (v.Text? && v.text == String(w, fl))
    || (w.Text? && w.text == String(v, fl))
  }

  /** Exactly which values spell alike, reals aside. */
  lemma StringExact(v: Value, w: Value, fl: Floats)
    requires !v.Real? && !w.Real?
    ensures String(v, fl) == String(w, fl) <==> SpellAlike(v, w, fl)
  {
    if !v.Text? && !w.Text? && String(v, fl) == String(w, fl) {
      StringStarts(v, fl);
      StringStarts(w, fl);
      if v.Integer? && w.Integer? {
        ParseFormat(v.i);
        ParseFormat(w.i);
      } else if v.Blob? && w.Blob? {
        BlobLength(v.blob, fl);
        BlobLength(w.blob, fl);
      }
    }
  }

  /** The first byte tells NULL, integers and blobs apart. */
  lemma StringStarts(v: Value, fl: Floats)
    requires v.Null? || v.Integer? || v.Blob?
    ensures var s := String(v, fl);
            && s != []
            && (v.Null? <==> s[0] == NULL_TEXT[0]) && (v.Blob? <==> s[0] == BLOB_TEXT[0])
  {
    if v.Integer? {
      var n := Magnitude(v.i);
      assert Decimal(n)[0] in Decimal(n);
    }
  }

  /** A blob's spelling tells its length. */
  lemma BlobLength(b: Bytes, fl: Floats)
    ensures var s := String(Blob(b), fl);
            |s| > 7 && Undecimal(s[6..|s| - 1]) == Some(|b|)
  {
    var s := String(Blob(b), fl);
    UndecimalDecimal(|b|);
    assert s[6..|s| - 1] == Decimal(|b|);
  }

  // ----- Coercion -----

  /** The values a column of this type keeps as they are. */
  predicate Belongs(v: Value, t: ColumnType) {
    match t
    case IntegerType => !v.Real? && !v.Text?
    case RealType => !v.Integer? && !v.Text?
    case TextType => v.Null? || v.Text?
    case _ => true
  }

  /** CoerceValue. What comes out belongs to the column, and what belongs is left alone; a text that
      spells no number is refused by the numeric columns. A number changes its representation only, a
      text becomes the integer it spells or else the real number, and a text column takes the text of
      the value. */
  function CoerceValue(v: Value, t: ColumnType, fl: Floats): (r: Result<Value>)
    ensures r == Ok(v) <==> Belongs(v, t)
    ensures r.Ok? ==> Belongs(r.value, t)
    ensures r.Err? <==>
              v.Text? && fl.parse(v.text).None? && (t.RealType? || (t.IntegerType? && ParseInt(v.text).None?))
    ensures r.Ok? && t.RealType? && v.Integer? ==> r.value == Real(fl.ofInt(v.i))
    ensures r.Ok? && t.RealType? && v.Text? ==> fl.parse(v.text).Some? && r.value == Real(fl.parse(v.text).value)
    ensures r.Ok? && t.IntegerType? && v.Real? ==> r.value == Integer(fl.toInt(v.bits))
    ensures r.Ok? && t.IntegerType? && v.Text? ==>
              && (forall i: int64 :: ParseInt(v.text) == Some(i) ==> r.value == Integer(i))
              && (ParseInt(v.text).None? ==> r.value == Integer(fl.toInt(fl.parse(v.text).value)))
    ensures r.Ok? && t.TextType? && !v.Null? ==> r.value == Text(String(v, fl))
  {
    match t
    case IntegerType =>
      (match v
       case Real(bits) => Ok(Integer(fl.toInt(bits)))
       case Text(s) =>
         (match ParseInt(s)
          case Some(i) => Ok(Integer(i))
          case None =>
            match fl.parse(s)
            case Some(bits) => Ok(Integer(fl.toInt(bits)))
            case None => Err(BadConversion))
       case _ => Ok(v))
    case RealType =>
      (match v
       case Integer(i) => Ok(Real(fl.ofInt(i)))
       case Text(s) =>
         (match fl.parse(s)
          case Some(bits) => Ok(Real(bits))
          case None => Err(BadConversion))
       case _ => Ok(v))
    case TextType => if v.Null? then Ok(v) else Ok(Text(String(v, fl)))
    case _ => Ok(v)
  }

  /** An integer survives being stored as text and read as an integer. */
  lemma IntegerThroughText(i: int64, fl: Floats)
    ensures CoerceValue(Integer(i), TextType, fl).Ok?
    ensures CoerceValue(CoerceValue(Integer(i), TextType, fl).value, IntegerType, fl) == Ok(Integer(i))
  {
    ParseFormat(i);
  }

  /** The payload has a length that four bytes hold. */
  predicate Bounded(v: Value) { |Payload(v)| < 0x1_0000_0000 }

  /** Coercion makes no bounded value too long, when the spellings of floating-point numbers are
      bounded. */
  lemma CoerceBounded(v: Value, t: ColumnType, fl: Floats)
    requires Bounded(v) && (v.Real? ==> |fl.format(v.bits)| < 0x1_0000_0000)
    ensures CoerceValue(v, t, fl).Ok? ==> Bounded(CoerceValue(v, t, fl).value)
  {
    Pow10Twenty();
    match v {
      case Integer(i) => DecimalShort(Magnitude(i), 20);
      case Blob(b) => DecimalShort(|b|, 20);
      case _ =>
    }
  }
}
