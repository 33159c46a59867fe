/** Java-language facts the model relies on: nullable references, the
    exceptions the modelled code can raise, 32-bit `int` wrap-around, and the
    two ways the code measures a string (`String.length()` counts UTF-16 code
    units, `getBytes(UTF_8).length` counts UTF-8 bytes). */
module JavaLang {

  /** A nullable Java reference: `None` is `null`. */
  datatype Option<+T> = None | Some(value: T)

  /** The exceptions the modelled methods can raise. */
  datatype Exception =
    | IllegalArgument          // java.lang.IllegalArgumentException
    | NullPointer              // java.lang.NullPointerException
    | StringIndexOutOfBounds   // java.lang.StringIndexOutOfBoundsException
    | SqlError                 // java.sql.SQLException

  /** A value, or the exception thrown instead of returning it. */
  datatype Result<+T> = Ok(value: T) | Err(error: Exception)

  const IntMin: int := -0x8000_0000
  const IntMax: int := 0x7FFF_FFFF
  const LongMin: int := -0x8000_0000_0000_0000
  const LongMax: int := 0x7FFF_FFFF_FFFF_FFFF
  const TwoTo32: int := 0x1_0000_0000

  predicate IsInt(x: int) { IntMin <= x <= IntMax }
  predicate IsLong(x: int) { LongMin <= x <= LongMax }

  function Max(a: int, b: int): int { if a < b then b else a }
  function Min(a: int, b: int): int { if a < b then a else b }

  /** The value a Java `int` expression takes when its mathematical value is `x`. */
  function Wrap32(x: int): (r: int)
    ensures IsInt(r)
    ensures r % TwoTo32 == x % TwoTo32
    ensures IsInt(x) ==> r == x
  {
    var m := x % TwoTo32;
    if m <= IntMax then m else m - TwoTo32
  }

  /* ---------------- UTF-16: String.length() and String.hashCode() ---------------- */

  /** The UTF-16 code units of one Unicode scalar value (a surrogate pair above U+FFFF). */
  function Utf16Units(c: char): (u: seq<int>)
    ensures |u| == if c as int < 0x1_0000 then 1 else 2
    ensures forall k :: 0 <= k < |u| ==> 0 <= u[k] < 0x1_0000
  {
    var v := c as int;
    if v < 0x1_0000 then [v]
    else [0xD800 + (v - 0x1_0000) / 0x400, 0xDC00 + (v - 0x1_0000) % 0x400]
  }

  function Utf16(s: string): (u: seq<int>)
    ensures |u| >= |s|
    decreases |s|
  {
    if s == [] then [] else Utf16(s[..|s| - 1]) + Utf16Units(s[|s| - 1])
  }

  /** `String.length()`: the number of UTF-16 code units. */
  function JavaLength(s: string): nat
  {
    |Utf16(s)|
  }

  predicate IsAscii(s: string)
  {
    forall i :: 0 <= i < |s| ==> s[i] as int < 0x80
  }

  lemma {:induction false} Utf16Append(a: string, b: string)
    ensures Utf16(a + b) == Utf16(a) + Utf16(b)
    decreases |b|
  {
    if b == [] {
      assert a + b == a;
    } else {
      var b' := b[..|b| - 1];
      assert (a + b)[..|a + b| - 1] == a + b';
      Utf16Append(a, b');
    }
  }

  lemma {:induction false} AsciiJavaLength(s: string)
    requires IsAscii(s)
    ensures JavaLength(s) == |s|
    decreases |s|
  {
    if s != [] {
      AsciiJavaLength(s[..|s| - 1]);
    }
  }

  /** Java's String hash: h = 31 * h + unit over the UTF-16 units, in `int` arithmetic. */
  function HashUnits(u: seq<int>): (h: int)
    ensures IsInt(h)
    decreases |u|
  {
    if u == [] then 0 else Wrap32(31 * HashUnits(u[..|u| - 1]) + u[|u| - 1])
  }

  /** `String.hashCode()`. */
  function StringHash(s: string): (h: int)
    ensures IsInt(h)
  {
    HashUnits(Utf16(s))
  }

  /* ---------------- UTF-8: String.getBytes(UTF_8).length ---------------- */

  function Utf8Width(c: char): (w: nat)
    ensures 1 <= w <= 4
    ensures c as int < 0x80 ==> w == 1
  {
    if c as int < 0x80 then 1
    else if c as int < 0x800 then 2
    else if c as int < 0x1_0000 then 3
    else 4
  }

  /** The number of bytes of the UTF-8 encoding of `s`. */
  function Utf8Length(s: string): (n: nat)
    ensures n >= |s|
    decreases |s|
  {
    if s == [] then 0 else Utf8Length(s[..|s| - 1]) + Utf8Width(s[|s| - 1])
  }

  lemma {:induction false} Utf8Append(a: string, b: string)
    ensures Utf8Length(a + b) == Utf8Length(a) + Utf8Length(b)
    decreases |b|
  {
    if b == [] {
      assert a + b == a;
    } else {
      var b' := b[..|b| - 1];
      assert (a + b)[..|a + b| - 1] == a + b';
      Utf8Append(a, b');
    }
  }

  lemma {:induction false} AsciiUtf8Length(s: string)
    requires IsAscii(s)
    ensures Utf8Length(s) == |s|
    decreases |s|
  {
    if s != [] {
      AsciiUtf8Length(s[..|s| - 1]);
    }
  }

  lemma {:induction false} Utf8LengthBound(s: string)
    ensures Utf8Length(s) <= 4 * |s|
    decreases |s|
  {
    if s != [] {
      Utf8LengthBound(s[..|s| - 1]);
    }
  }

  lemma {:induction false} JavaLengthBound(s: string)
    ensures JavaLength(s) <= 2 * |s|
    decreases |s|
  {
    if s != [] {
      JavaLengthBound(s[..|s| - 1]);
    }
  }

  lemma AsciiAppend(a: string, b: string)
    requires IsAscii(a) && IsAscii(b)
    ensures IsAscii(a + b)
  {
  }
}
