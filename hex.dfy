/**
 * Hexadecimal digits and the packet checksum of the SuperH loader:
 * `hextoint`, `asciihextobyte` and `cksum`, plus the `%x` rendering that
 * the command strings use. A C `char` is one byte; a `char` here stands
 * for that byte.
 */
module Hex {
  import opened Opt

  /** The digit table of `cksum` and of `%x`: lowercase. */
  const Digits: seq<char> := "0123456789abcdef"

  predicate IsLowerHex(c: char) { '0' <= c <= '9' || 'a' <= c <= 'f' }

  predicate IsUpperHex(c: char) { 'A' <= c <= 'F' }

  predicate IsHexDigit(c: char) { IsLowerHex(c) || IsUpperHex(c) }

  predicate AllLowerHex(s: seq<char>) { forall i :: 0 <= i < |s| ==> IsLowerHex(s[i]) }

  /** `hextoint`: the value of a hex digit of either case; any other character is worth 0. */
  function HexToInt(c: char): (r: nat)
    ensures r < 16
    ensures !IsHexDigit(c) ==> r == 0
  {
    if '0' <= c <= '9' then c as int - '0' as int
    else if 'a' <= c <= 'f' then c as int - 'a' as int + 10
    else if 'A' <= c <= 'F' then c as int - 'A' as int + 10
    else 0
  }

  /** The digit table and `HexToInt` are inverse on 0..15. */
  lemma DigitValue(n: nat)
    requires n < 16
    ensures IsLowerHex(Digits[n]) && HexToInt(Digits[n]) == n
  {
    if n < 10 {
      assert Digits[n] as int == '0' as int + n;
    } else {
      assert Digits[n] as int == 'a' as int + n - 10;
    }
  }

  /** A lowercase hex digit is the table entry of its own value. */
  lemma DigitOfValue(c: char)
    requires IsLowerHex(c)
    ensures Digits[HexToInt(c)] == c
  {
    var n := HexToInt(c);
    DigitValue(n);
    if '0' <= c <= '9' {
      assert Digits[n] as int == '0' as int + n;
    } else {
      assert Digits[n] as int == 'a' as int + n - 10;
    }
  }

  /** `hextoint` does not care about case. */
  lemma HexToIntIgnoresCase(c: char)
    requires IsUpperHex(c)
    ensures HexToInt((c as int + 32) as char) == HexToInt(c) > 9
  {
  }

  /**
   * `sprintf(.., "%x", hextoint(c))`: the loader's re-rendering of one
   * character of a record. It keeps the digit's value, lowercases it, and
   * turns every non-hex character into '0'.
   */
  function Rehex(c: char): (r: char)
    ensures IsLowerHex(r)
    ensures HexToInt(r) == HexToInt(c)
    ensures IsLowerHex(c) ==> r == c
    ensures IsUpperHex(c) ==> r as int == c as int + 32
    ensures !IsHexDigit(c) ==> r == '0'
  {
    DigitValue(HexToInt(c));
    if IsLowerHex(c) then DigitOfValue(c); Digits[HexToInt(c)]
    else if IsUpperHex(c) then
      assert Digits[HexToInt(c)] as int == 'a' as int + HexToInt(c) - 10;
      Digits[HexToInt(c)]
    else Digits[HexToInt(c)]
  }

  /** Re-rendering is idempotent. */
  lemma RehexIdempotent(c: char)
    ensures Rehex(Rehex(c)) == Rehex(c)
  {
  }

  /** `asciihextobyte`: two hex characters, high nibble first, as one byte. */
  function AsciiHexToByte(hi: char, lo: char): (r: nat)
    ensures r < 256
    ensures r / 16 == HexToInt(hi) && r % 16 == HexToInt(lo)
  {
    HexToInt(hi) * 16 + HexToInt(lo)
  }

  /**
   * The sum of the character codes of a string, as `cksum`'s loop
   * accumulates it. C stops at the first NUL; every command the model
   * sends is free of NUL (`Commands.RenderPlain`), so the sum runs over all of it.
   */
  function Sum(s: seq<char>): nat
  {
    if s == [] then 0 else s[0] as int + Sum(s[1..])
  }

  /**
   * `cksum`: two lowercase hex digits, `(v >> 4) & 0xf` and `v & 0xf` of
   * the sum `v` of the command's characters.
   */
  function Cksum(cmd: seq<char>): (r: seq<char>)
    ensures |r| == 2 && IsLowerHex(r[0]) && IsLowerHex(r[1])
  {
    var v := Sum(cmd);
    DigitValue(v / 16 % 16);
    DigitValue(v % 16);
    [Digits[v / 16 % 16], Digits[v % 16]]
  }

  /**
   * The checksum is the low byte of the sum, high nibble first, and
   * `asciihextobyte` reads that byte back from it.
   */
  lemma CksumValue(cmd: seq<char>)
    ensures var r := Cksum(cmd);
      && HexToInt(r[0]) == Sum(cmd) % 256 / 16 && HexToInt(r[1]) == Sum(cmd) % 16
      && AsciiHexToByte(r[0], r[1]) == Sum(cmd) % 256
  {
    var v := Sum(cmd);
    DigitValue(v / 16 % 16);
    DigitValue(v % 16);
    LowByteNibbles(v);
  }

  /** `(v >> 4) & 0xf` and `v & 0xf` are the two nibbles of the low byte of `v`. */
  lemma LowByteNibbles(v: nat)
    ensures v / 16 % 16 == v % 256 / 16 && v % 16 == v % 256 % 16
  {
    var q, b := v / 256, v % 256;
    var hi, lo := b / 16, b % 16;
    assert v == q * 256 + hi * 16 + lo;
    assert v == (q * 16 + hi) * 16 + lo;
  }

  /** The checksums of the two fixed packets: `qID` (shload.c:300) and the acknowledgement `+` (shload.c:258). */
  lemma CksumExamples()
    ensures Cksum("qID") == "fe"
    ensures Cksum("+") == "2b"
  {
    assert Sum("qID") == 254 by {
      assert "qID"[1..] == "ID" && "ID"[1..] == "D" && "D"[1..] == [];
    }
    assert Sum("+") == 43 by {
      assert "+"[1..] == [];
    }
  }

  /** The value of a string of hex digits, most significant first. */
  function HexValue(s: seq<char>): nat
  {
    if s == [] then 0 else HexValue(s[..|s| - 1]) * 16 + HexToInt(s[|s| - 1])
  }

  /**
   * `%x` / `%lx` of a non-negative number: lowercase digits, most
   * significant first, no leading zeros, "0" for zero.
   */
  function HexString(n: nat): (r: seq<char>)
    ensures 1 <= |r| && AllLowerHex(r)
    ensures r[0] == '0' <==> n == 0
    ensures n == 0 ==> r == "0"
    ensures HexValue(r) == n
    decreases n
  {
    DigitValue(n % 16);
    if n < 16 then
      assert [Digits[n]][..0] == [];
      [Digits[n]]
    else
      var h := HexString(n / 16);
      var r := h + [Digits[n % 16]];
      assert r[..|r| - 1] == h;
      r
  }

  /** A field of lowercase hex digits, as the monitor reads it back. */
  function ParseHex(s: seq<char>): (r: Option<nat>)
    ensures r.Some? <==> |s| > 0 && AllLowerHex(s)
  {
    if |s| > 0 && AllLowerHex(s) then Some(HexValue(s)) else None
  }

  /** `%x` is read back as the number it renders. */
  lemma HexStringRoundTrip(n: nat)
    ensures ParseHex(HexString(n)) == Some(n)
  {
  }

  /** Conversely, a canonical digit string is exactly the `%x` rendering of its value. */
  lemma {:induction false} HexStringCanonical(s: seq<char>)
    requires |s| > 0 && AllLowerHex(s)
    requires s[0] != '0' || |s| == 1
    ensures HexString(HexValue(s)) == s
    decreases |s|
  {
    var last := s[|s| - 1];
    DigitOfValue(last);
    if |s| == 1 {
      assert HexValue(s) == HexToInt(last) by { assert s[..0] == []; }
    } else {
      var init := s[..|s| - 1];
      assert init[0] == s[0];
      HexStringCanonical(init);
      var n := HexValue(s);
      assert n / 16 == HexValue(init) && n % 16 == HexToInt(last);
      assert s == init + [last];
    }
  }
}
