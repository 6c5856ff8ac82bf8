/** The share records of common.h and the hex encoders of common.cpp. */
module Common {

  /** One point (x, f(x)) of the sharing polynomial. SHARE_INT,
      SHARE_LONG and SHARE_BIGNUM differ only in the width of the two
      fields; the width each variant imposes is stated where it is used. */
  datatype Share = Share(x: int, y: int)

  /** An `unsigned char`. */
  type Byte = b: int | 0 <= b < 256

  /** The hex digit for a value below 16, in lower or upper case. */
  function HexDigit(v: int, upper: bool): (c: char)
    requires 0 <= v < 16
    ensures v < 10 ==> c == "0123456789"[v]
    ensures v >= 10 && !upper ==> c == "abcdef"[v - 10]
    ensures v >= 10 && upper ==> c == "ABCDEF"[v - 10]
  {
    if v < 10 then (48 + v) as char
    else if upper then (55 + v) as char
    else (87 + v) as char
  }

  /** The value of a hex digit of either case. */
  function DigitValue(c: char): (v: int)
    ensures 0 <= v < 16
  {
    if '0' <= c <= '9' then c as int - 48
    else if 'a' <= c <= 'f' then c as int - 87
    else if 'A' <= c <= 'F' then c as int - 55
    else 0
  }

  /** Each byte as two zero-padded hex digits, high nibble first. */
  function Hex(bytes: seq<Byte>, upper: bool): (s: string)
    ensures |s| == 2 * |bytes|
  {
    if bytes == [] then []
    else
      var b := bytes[|bytes| - 1];
      Hex(bytes[..|bytes| - 1], upper) + [HexDigit(b / 16, upper), HexDigit(b % 16, upper)]
  }

  /** Reads pairs of hex digits back as bytes. */
  function Unhex(s: string): (bytes: seq<Byte>)
    requires |s| % 2 == 0
    ensures |bytes| == |s| / 2
  {
    if s == [] then []
    else
      var n := |s|;
      Unhex(s[..n - 2]) + [DigitValue(s[n - 2]) * 16 + DigitValue(s[n - 1])]
  }

  /** A letter digit in upper case; other characters unchanged. */
  function UpperChar(c: char): char {
    if 'a' <= c <= 'z' then (c as int - 32) as char else c
  }

  function Upper(s: string): (r: string)
    ensures |r| == |s| && forall i :: 0 <= i < |s| ==> r[i] == UpperChar(s[i])
  {
    seq(|s|, i requires 0 <= i < |s| => UpperChar(s[i]))
  }

  /** bytesToHex: `std::hex << std::setw(2) << std::setfill('0')` per byte. */
  method BytesToHex(bytes: seq<Byte>) returns (s: string)
    ensures s == Hex(bytes, false)
  {
    s := "";
    for i := 0 to |bytes|
      invariant s == Hex(bytes[..i], false)
    {
      var b := bytes[i];
      assert bytes[..i + 1][..i] == bytes[..i];
      s := s + [HexDigit(b / 16, false), HexDigit(b % 16, false)];
    }
    assert bytes[..|bytes|] == bytes;
  }

  /** bufferToHex: `snprintf(buf, 3, "%02X", buffer[i])` appended for each
      of the first len bytes. */
  method BufferToHex(buffer: array<Byte>, len: int) returns (s: string)
    requires 0 <= len <= buffer.Length
    ensures s == Hex(buffer[..len], true)
  {
    s := "";
    for i := 0 to len
      invariant s == Hex(buffer[..i], true)
    {
      var b := buffer[i];
      assert buffer[..i + 1][..i] == buffer[..i];
      s := s + [HexDigit(b / 16, true), HexDigit(b % 16, true)];
    }
  }

  /** Byte i is rendered at positions 2i and 2i+1. */
  lemma {:induction false} HexDigits(bytes: seq<Byte>, upper: bool, i: int)
    requires 0 <= i < |bytes|
    ensures Hex(bytes, upper)[2 * i] == HexDigit(bytes[i] / 16, upper)
    ensures Hex(bytes, upper)[2 * i + 1] == HexDigit(bytes[i] % 16, upper)
  {
    var n := |bytes|;
    if i < n - 1 {
      HexDigits(bytes[..n - 1], upper, i);
    }
  }

  /** Encoding distributes over concatenation. */
  lemma {:induction false} HexConcat(a: seq<Byte>, b: seq<Byte>, upper: bool)
    ensures Hex(a + b, upper) == Hex(a, upper) + Hex(b, upper)
    decreases |b|
  {
    if b != [] {
      var n := |b|;
      assert (a + b)[..|a + b| - 1] == a + b[..n - 1];
      HexConcat(a, b[..n - 1], upper);
    } else {
      assert a + b == a;
    }
  }

  /** The upper-case encoding is the lower-case one with its letters
      capitalised. */
  lemma {:induction false} HexCaseAgree(bytes: seq<Byte>)
    ensures Hex(bytes, true) == Upper(Hex(bytes, false))
    decreases |bytes|
  {
    if bytes != [] {
      var n := |bytes|;
      HexCaseAgree(bytes[..n - 1]);
      var b := bytes[n - 1];
      assert UpperChar(HexDigit(b / 16, false)) == HexDigit(b / 16, true);
      assert UpperChar(HexDigit(b % 16, false)) == HexDigit(b % 16, true);
    }
  }

  lemma DigitRoundTrip(v: int, upper: bool)
    requires 0 <= v < 16
    ensures DigitValue(HexDigit(v, upper)) == v
  {
  }

  /** One byte's two digits decode to that byte. */
  lemma ByteRoundTrip(b: Byte, upper: bool)
    ensures DigitValue(HexDigit(b / 16, upper)) * 16 + DigitValue(HexDigit(b % 16, upper)) == b
  {
    DigitRoundTrip(b / 16, upper);
    DigitRoundTrip(b % 16, upper);
  }

  /** Appending the two digits of a byte appends that byte to the decoding. */
  lemma {:induction false} UnhexStep(t: string, decoded: seq<Byte>, hi: char, lo: char, b: Byte)
    requires |t| % 2 == 0 && Unhex(t) == decoded && DigitValue(hi) * 16 + DigitValue(lo) == b
    ensures Unhex(t + [hi, lo]) == decoded + [b]
  {
    var s := t + [hi, lo];
    assert s[..|s| - 2] == t;
  }

  /** The encoding is lossless: decoding it gives the bytes back, in
      either case. */
  lemma {:induction false} HexRoundTrip(bytes: seq<Byte>, upper: bool)
    ensures Unhex(Hex(bytes, upper)) == bytes
    decreases |bytes|
  {
    if bytes != [] {
      var n := |bytes|;
      var init := bytes[..n - 1];
      var b := bytes[n - 1];
      assert bytes == init + [b];
      HexRoundTrip(init, upper);
      ByteRoundTrip(b, upper);
      UnhexStep(Hex(init, upper), init, HexDigit(b / 16, upper), HexDigit(b % 16, upper), b);
    }
  }
}
