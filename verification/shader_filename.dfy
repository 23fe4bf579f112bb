/** The file name of a cached program binary: the key (platform hash,
    binary format, shader hash) written as `%016llx_%08x_%016llx.bin`, and
    the strict hand-written parser that reads it back. */
module ShaderFilename {
  import opened Common

  /** The three components that identify one cached program binary. */
  datatype CacheKey = CacheKey(platformHash: u64, format: u32, shaderHash: u64)

  /** 16 + "_" + 8 + "_" + 16 + ".bin" */
  const NameLength: nat := 46
  const Extension: string := ".bin"

  predicate IsHexChar(c: char)
  {
    ('0' <= c <= '9') || ('A' <= c <= 'F') || ('a' <= c <= 'f')
  }

  /** The value of one hexadecimal digit, either case. */
  function DigitValue(c: char): (d: nat)
    requires IsHexChar(c)
    ensures d < 16
  {
    if '0' <= c <= '9' then c as int - '0' as int
    else if 'A' <= c <= 'F' then c as int - 'A' as int + 10
    else c as int - 'a' as int + 10
  }

  /** The lower-case digit `printf` writes for `%x`. */
  function HexChar(d: nat): (c: char)
    requires d < 16
    ensures IsHexChar(c) && DigitValue(c) == d
    ensures !('A' <= c <= 'Z')
  {
    if d < 10 then ('0' as int + d) as char else ('a' as int + d - 10) as char
  }

  predicate AllHex(s: string)
  {
    forall i :: 0 <= i < |s| ==> IsHexChar(s[i])
  }

  function Pow16(n: nat): (p: nat)
    ensures p >= 1
  {
    if n == 0 then 1 else 16 * Pow16(n - 1)
  }

  /** What `strtoull(s, nullptr, 16)` returns for a string of hex digits. */
  function HexValue(s: string): nat
    requires AllHex(s)
  {
    if |s| == 0 then 0 else 16 * HexValue(s[..|s|-1]) + DigitValue(s[|s|-1])
  }

  /** The `n` lower-case, zero-padded hex digits of `v` (`%0<n>x`). */
  function HexDigits(v: nat, n: nat): (s: string)
    requires v < Pow16(n)
    ensures |s| == n && AllHex(s)
    ensures forall i :: 0 <= i < |s| ==> !('A' <= s[i] <= 'Z')
  {
    if n == 0 then "" else HexDigits(v / 16, n - 1) + [HexChar(v % 16)]
  }

  lemma {:induction false} HexValueBound(s: string)
    requires AllHex(s)
    ensures HexValue(s) < Pow16(|s|)
  {
    if |s| > 0 {
      HexValueBound(s[..|s|-1]);
    }
  }

  /** Reading back `n` formatted digits gives the value that was formatted. */
  lemma {:induction false} HexRoundTrip(v: nat, n: nat)
    requires v < Pow16(n)
    ensures HexValue(HexDigits(v, n)) == v
  {
    if n > 0 {
      var s := HexDigits(v, n);
      assert s[..|s|-1] == HexDigits(v / 16, n - 1);
      HexRoundTrip(v / 16, n - 1);
    }
  }

  /** A position that must hold a hex digit. */
  predicate HexPosition(i: int)
  {
    (0 <= i < 16) || (17 <= i < 25) || (26 <= i < 42)
  }

  /** The shape every cache file name has, stated position by position. */
  predicate IsValidName(name: string)
  {
    && |name| == NameLength
    && name[42..] == Extension
    && name[16] == '_' && name[25] == '_'
    && forall i :: 0 <= i < 42 && HexPosition(i) ==> IsHexChar(name[i])
  }

  /** The name `ShaderFilenameFormat` produces for a key. */
  function ShaderFilename(k: CacheKey): (name: string)
    ensures IsValidName(name)
    ensures forall i :: 0 <= i < |name| ==> !('A' <= name[i] <= 'Z')
  {
    assert Pow16(8) == TWO_32;
    assert Pow16(16) == TWO_64;
    var name := HexDigits(k.platformHash, 16) + "_" + HexDigits(k.format, 8) + "_"
                + HexDigits(k.shaderHash, 16) + Extension;
    assert forall i :: 0 <= i < 16 ==> name[i] == HexDigits(k.platformHash, 16)[i];
    assert forall i :: 17 <= i < 25 ==> name[i] == HexDigits(k.format, 8)[i - 17];
    assert forall i :: 26 <= i < 42 ==> name[i] == HexDigits(k.shaderHash, 16)[i - 26];
    assert forall i :: 42 <= i < 46 ==> name[i] == Extension[i - 42];
    name
  }

  /** ASCII lower-casing, used to compare names regardless of digit case. */
  function LowerCase(s: string): (r: string)
    ensures |r| == |s|
    ensures forall i :: 0 <= i < |s| ==> r[i] == (if 'A' <= s[i] <= 'Z' then (s[i] as int + 32) as char else s[i])
  {
    if |s| == 0 then "" else LowerCase(s[..|s|-1]) + [if 'A' <= s[|s|-1] <= 'Z' then (s[|s|-1] as int + 32) as char else s[|s|-1]]
  }

  lemma DivModDigit(x: nat, d: nat)
    requires d < 16
    ensures (16 * x + d) / 16 == x && (16 * x + d) % 16 == d
  {
  }

  /** Re-formatting the value of a run of hex digits reproduces the run in lower case. */
  lemma {:induction false} HexDigitsOfValue(s: string)
    requires AllHex(s)
    ensures HexValue(s) < Pow16(|s|)
    ensures HexDigits(HexValue(s), |s|) == LowerCase(s)
  {
    HexValueBound(s);
    if |s| > 0 {
      var p, c := s[..|s|-1], s[|s|-1];
      HexDigitsOfValue(p);
      var v := HexValue(s);
      DivModDigit(HexValue(p), DigitValue(c));
      HexCharOfDigit(c);
      assert HexDigits(v, |s|) == HexDigits(HexValue(p), |p|) + [HexChar(DigitValue(c))];
      assert LowerCase(s) == LowerCase(p) + [LowerCase(s)[|s|-1]];
    }
  }

  /** Formatting the value of a digit gives the digit in lower case. */
  lemma HexCharOfDigit(c: char)
    requires IsHexChar(c)
    ensures HexChar(DigitValue(c)) == if 'A' <= c <= 'Z' then (c as int + 32) as char else c
  {
  }

  /** `parseShaderFilename`: accepts a name exactly when it has the shape of
      `ShaderFilenameFormat` (either digit case), and then returns its key. */
  function ParseShaderFilename(name: string): (r: Option<CacheKey>)
    ensures r.Some? <==> IsValidName(name)
    ensures r.Some? ==> ShaderFilename(r.value) == LowerCase(name)
  {
    if |name| != NameLength then None
    else if name[42..] != Extension || name[16] != '_' || name[25] != '_' then None
    else if !AllHex(name[0..16]) then None
    else if !AllHex(name[17..25]) then None
    else if !AllHex(name[26..42]) then None
    else
      ParsedNameIsValid(name);
      ParsedNameIsCanonical(name);
      Some(CacheKey(HexValue(name[0..16]), HexValue(name[17..25]), HexValue(name[26..42])))
  }

  lemma LowerCaseConcat(a: string, b: string)
    ensures LowerCase(a + b) == LowerCase(a) + LowerCase(b)
  {
    assert forall i :: 0 <= i < |a| ==> (a + b)[i] == a[i];
    assert forall i :: |a| <= i < |a| + |b| ==> (a + b)[i] == b[i - |a|];
  }

  /** Lower-casing a prefix splits at any point inside it. */
  lemma LowerCaseSplit(s: string, j: nat, k: nat)
    requires j <= k <= |s|
    ensures LowerCase(s[..k]) == LowerCase(s[..j]) + LowerCase(s[j..k])
  {
    assert s[..k] == s[..j] + s[j..k];
    LowerCaseConcat(s[..j], s[j..k]);
  }

  /** A lower-cased name is the lower-cased digit runs between the
      unchanged separators and extension. */
  lemma NameComponents(name: string)
    requires |name| == NameLength && name[42..] == Extension && name[16] == '_' && name[25] == '_'
    ensures LowerCase(name) == LowerCase(name[0..16]) + "_" + LowerCase(name[17..25]) + "_"
                               + LowerCase(name[26..42]) + Extension
  {
    assert name[..46] == name;
    assert name[42..46] == Extension && name[25..26] == "_" && name[16..17] == "_" && name[..16] == name[0..16];
    assert LowerCase("_") == "_";
    assert LowerCase(Extension) == Extension;
    LowerCaseSplit(name, 42, 46);
    LowerCaseSplit(name, 26, 42);
    LowerCaseSplit(name, 25, 26);
    LowerCaseSplit(name, 17, 25);
    LowerCaseSplit(name, 16, 17);
  }

  lemma ParsedNameIsValid(name: string)
    requires |name| == NameLength && name[42..] == Extension && name[16] == '_' && name[25] == '_'
    requires AllHex(name[0..16]) && AllHex(name[17..25]) && AllHex(name[26..42])
    ensures IsValidName(name)
  {
    forall i | 0 <= i < 42 && HexPosition(i)
      ensures IsHexChar(name[i])
    {
      if i < 16 {
        assert name[i] == name[0..16][i];
      } else if i < 25 {
        assert name[i] == name[17..25][i - 17];
      } else {
        assert name[i] == name[26..42][i - 26];
      }
    }
  }

  lemma ParsedNameIsCanonical(name: string)
    requires |name| == NameLength && name[42..] == Extension && name[16] == '_' && name[25] == '_'
    requires AllHex(name[0..16]) && AllHex(name[17..25]) && AllHex(name[26..42])
    ensures HexValue(name[0..16]) < TWO_64 && HexValue(name[17..25]) < TWO_32 && HexValue(name[26..42]) < TWO_64
    ensures ShaderFilename(CacheKey(HexValue(name[0..16]), HexValue(name[17..25]), HexValue(name[26..42])))
            == LowerCase(name)
  {
    assert Pow16(8) == TWO_32;
    assert Pow16(16) == TWO_64;
    HexDigitsOfValue(name[0..16]);
    HexDigitsOfValue(name[17..25]);
    HexDigitsOfValue(name[26..42]);
    NameComponents(name);
  }

  /** `isShaderFilename`: the parser with every output pointer null. */
  function IsShaderFilename(name: string): (b: bool)
    ensures b <==> IsValidName(name)
  {
    ParseShaderFilename(name).Some?
  }

  /** Round trip: every key survives formatting followed by parsing. */
  lemma FilenameRoundTrip(k: CacheKey)
    ensures ParseShaderFilename(ShaderFilename(k)) == Some(k)
  {
    var name := ShaderFilename(k);
    assert Pow16(8) == TWO_32;
    assert Pow16(16) == TWO_64;
    assert name[0..16] == HexDigits(k.platformHash, 16);
    assert name[17..25] == HexDigits(k.format, 8);
    assert name[26..42] == HexDigits(k.shaderHash, 16);
    HexRoundTrip(k.platformHash, 16);
    HexRoundTrip(k.format, 8);
    HexRoundTrip(k.shaderHash, 16);
  }

  /** Formatting is injective: two keys never share a file name. */
  lemma FilenameInjective(k1: CacheKey, k2: CacheKey)
    requires ShaderFilename(k1) == ShaderFilename(k2)
    ensures k1 == k2
  {
    FilenameRoundTrip(k1);
    FilenameRoundTrip(k2);
  }

  /** Changing one character of a valid name keeps it acceptable exactly
      when the character is unchanged, or a digit position receives another
      hex digit (of either case). */
  lemma SingleCharacterChange(name: string, i: nat, c: char)
    requires IsValidName(name) && i < |name|
    ensures ParseShaderFilename(name[i := c]).Some? <==> (c == name[i] || (HexPosition(i) && IsHexChar(c)))
  {
    var m := name[i := c];
    if c != name[i] && !(HexPosition(i) && IsHexChar(c)) {
      if 42 <= i {
        assert m[42..][i - 42] != Extension[i - 42];
      }
      assert !IsValidName(m);
    }
    if c == name[i] || (HexPosition(i) && IsHexChar(c)) {
      assert m[42..] == name[42..];
      assert IsValidName(m);
    }
  }

  /** Upper-case hex digits in a name the formatter produced are accepted
      too, and read back as the same key. */
  lemma UpperCaseDigitsAccepted(k: CacheKey, upper: string)
    requires |upper| == NameLength
    requires forall i :: 0 <= i < NameLength && !HexPosition(i) ==> upper[i] == ShaderFilename(k)[i]
    requires forall i :: HexPosition(i) ==> upper[i] == UpperDigit(ShaderFilename(k)[i])
    ensures ParseShaderFilename(upper) == Some(k)
  {
    var name := ShaderFilename(k);
    assert upper[42..] == name[42..];
    assert IsValidName(upper);
    var r := ParseShaderFilename(upper);
    forall i | 0 <= i < NameLength
      ensures LowerCase(upper)[i] == name[i]
    {
      if HexPosition(i) {
        assert upper[i] == UpperDigit(name[i]);
      }
    }
    assert LowerCase(upper) == name;
    FilenameInjective(r.value, k);
  }

  /** Upper-case form of a lower-case hex digit. */
  function UpperDigit(c: char): (u: char)
    ensures IsHexChar(c) ==> IsHexChar(u)
    ensures ('a' <= c <= 'f') ==> 'A' <= u <= 'F'
    ensures !('a' <= c <= 'f') ==> u == c
  {
    if 'a' <= c <= 'f' then (c as int - 32) as char else c
  }
}
