/** What becomes of a string that is written by a json.Encoder and read back by a
    json.Decoder, and the hash of mit_6.824/src/mapreduce/common_map.go.  Strings
    are sequences of bytes. */
module Json {

  // ---------- UTF-8 ----------

  predicate Continues(c: char) { 0x80 <= c as int <= 0xBF }

  /** The second byte of a sequence that starts with `b`: no overlong forms, no
      surrogates, nothing above U+10FFFF. */
  predicate Second(b: int, c: char) {
    var lo := if b == 0xE0 then 0xA0 else if b == 0xF0 then 0x90 else 0x80;
    var hi := if b == 0xED then 0x9F else if b == 0xF4 then 0x8F else 0xBF;
    lo <= c as int <= hi
  }

  /** The length that the first byte announces, 0 if it cannot be a first byte. */
  function Lead(b: int): (n: nat)
    ensures n <= 4
  {
    if b < 0x80 then 1
    else if 0xC2 <= b <= 0xDF then 2
    else if 0xE0 <= b <= 0xEF then 3
    else if 0xF0 <= b <= 0xF4 then 4
    else 0
  }

  /** `s` starts with a UTF-8 sequence of n bytes. */
  predicate StartsWith(s: string, n: nat) {
    && 1 <= n <= |s| && Lead(s[0] as int) == n
    && (n >= 2 ==> Second(s[0] as int, s[1]))
    && forall i :: 2 <= i < n ==> Continues(s[i])
  }

  /** The length of the UTF-8 sequence at the front of `s`, 0 if there is none. */
  function RuneLen(s: string): (n: nat)
    ensures n <= |s|
  {
    if s != [] && StartsWith(s, Lead(s[0] as int)) then Lead(s[0] as int) else 0
  }

  predicate Valid(s: string)
    decreases |s|
  {
    s == [] || (RuneLen(s) > 0 && Valid(s[RuneLen(s)..]))
  }

  /** U+FFFD. */
  const REPLACEMENT: string := ['\U{EF}', '\U{BF}', '\U{BD}']

  /** The encoder writes U+FFFD for each byte that is not part of valid UTF-8; everything
      else is escaped, if at all, so that the decoder restores it. */
  function Coerce(s: string): string
    decreases |s|
  {
    if s == [] then []
    else if RuneLen(s) == 0 then REPLACEMENT + Coerce(s[1..])
    else s[..RuneLen(s)] + Coerce(s[RuneLen(s)..])
  }

  lemma RuneAt(s: string, n: nat)
    requires StartsWith(s, n)
    ensures RuneLen(s) == n
  {
  }

  lemma StartsPrefix(s: string, n: nat, t: string)
    requires StartsWith(s, n) && n <= |t| && t[..n] == s[..n]
    ensures StartsWith(t, n)
  {
    forall i | 0 <= i < n ensures t[i] == s[i] {
      assert t[..n][i] == s[..n][i];
    }
  }

  lemma RuneValid(s: string, n: nat, t: string)
    requires StartsWith(s, n) && Valid(t)
    ensures Valid(s[..n] + t)
  {
    var u := s[..n] + t;
    assert u[..n] == s[..n] && u[n..] == t;
    StartsPrefix(s, n, u);
    RuneAt(u, n);
  }

  lemma {:induction false} ValidConcat(a: string, b: string)
    requires Valid(a) && Valid(b)
    ensures Valid(a + b)
    decreases |a|
  {
    if a == [] {
      assert a + b == b;
    } else {
      var n := RuneLen(a);
      assert StartsWith(a, n) && Valid(a[n..]);
      ConcatRest(a, n, b);
      ValidConcat(a[n..], b);
      RuneValid(a, n, a[n..] + b);
    }
  }

  lemma ConcatRest(a: string, n: nat, b: string)
    requires n <= |a|
    ensures a[..n] + (a[n..] + b) == a + b
  {
  }

  lemma {:induction false} AsciiValid(s: string)
    requires forall i :: 0 <= i < |s| ==> s[i] as int < 0x80
    ensures Valid(s)
  {
    if s != [] {
      AsciiValid(s[1..]);
    }
  }

  /** What is read back is always valid, ... */
  lemma {:induction false} CoerceValid(s: string)
    ensures Valid(Coerce(s))
    decreases |s|
  {
    if s != [] {
      var n := RuneLen(s);
      if n == 0 {
        CoerceValid(s[1..]);
        RuneValid(REPLACEMENT, 3, Coerce(s[1..]));
        assert REPLACEMENT[..3] == REPLACEMENT;
      } else {
        CoerceValid(s[n..]);
        RuneValid(s, n, Coerce(s[n..]));
      }
    }
  }

  /** ... and grows when something was replaced; so exactly valid strings survive. */
  lemma {:induction false} CoerceLength(s: string)
    ensures |Coerce(s)| >= |s|
    ensures Valid(s) ==> Coerce(s) == s
    ensures |Coerce(s)| == |s| ==> Valid(s)
    decreases |s|
  {
    if s != [] {
      var n := RuneLen(s);
      if n == 0 {
        CoerceLength(s[1..]);
      } else {
        CoerceLength(s[n..]);
        assert s[..n] + s[n..] == s;
      }
    }
  }

  lemma SurvivesExactly(s: string)
    ensures Coerce(s) == s <==> Valid(s)
  {
    CoerceLength(s);
  }

  lemma CoerceTwice(s: string)
    ensures Coerce(Coerce(s)) == Coerce(s)
  {
    CoerceValid(s);
    CoerceLength(Coerce(s));
  }

  // ---------- UTF-8 by code points ----------

  predicate Scalar(u: int) { 0 <= u < 0xD800 || 0xE000 <= u < 0x11_0000 }

  /** The table of section 3 of RFC 3629. */
  function Utf8(u: int): (s: string)
    requires Scalar(u)
    ensures 1 <= |s| <= 4
  {
    if u < 0x80 then [u as char]
    else if u < 0x800 then [(0xC0 + u / 64) as char, (0x80 + u % 64) as char]
    else if u < 0x1_0000 then [(0xE0 + u / 4096) as char, (0x80 + u / 64 % 64) as char, (0x80 + u % 64) as char]
    else [(0xF0 + u / 262144) as char, (0x80 + u / 4096 % 64) as char, (0x80 + u / 64 % 64) as char, (0x80 + u % 64) as char]
  }

  lemma Utf8Starts(u: int)
    requires Scalar(u)
    ensures StartsWith(Utf8(u), |Utf8(u)|)
  {
  }

  /** The code point of a sequence of one to four bytes. */
  function CodePoint(s: string): int
    requires 1 <= |s| <= 4
  {
    match |s|
    case 1 => s[0] as int
    case 2 => (s[0] as int - 0xC0) * 64 + Low(s[1])
    case 3 => (s[0] as int - 0xE0) * 4096 + Low(s[1]) * 64 + Low(s[2])
    case _ => (s[0] as int - 0xF0) * 262144 + Low(s[1]) * 4096 + Low(s[2]) * 64 + Low(s[3])
  }

  function Low(c: char): int { c as int - 0x80 }

  /** The low six bits and the rest. */
  lemma Bits(u: int, a: int, b: int)
    requires u == a * 64 + b && 0 <= b < 64
    ensures u / 64 == a && u % 64 == b
  {
  }

  lemma StartsTwo(a: int, b: int)
    requires 0xC2 <= a <= 0xDF && 0 <= b < 64
    ensures Scalar((a - 0xC0) * 64 + b) && Utf8((a - 0xC0) * 64 + b) == [a as char, (0x80 + b) as char]
  {
    Bits((a - 0xC0) * 64 + b, a - 0xC0, b);
  }

  lemma StartsThree(a: int, b: int, c: int)
    requires 0xE0 <= a <= 0xEF && 0 <= b < 64 && Second(a, (0x80 + b) as char) && 0 <= c < 64
    ensures var u := (a - 0xE0) * 4096 + b * 64 + c;
      Scalar(u) && Utf8(u) == [a as char, (0x80 + b) as char, (0x80 + c) as char]
  {
    var v := (a - 0xE0) * 64 + b;
    Bits(v * 64 + c, v, c);
    Bits(v, a - 0xE0, b);
    assert (v * 64 + c) / 4096 == a - 0xE0;
  }

  lemma StartsFour(a: int, b: int, c: int, d: int)
    requires 0xF0 <= a <= 0xF4 && 0 <= b < 64 && Second(a, (0x80 + b) as char) && 0 <= c < 64 && 0 <= d < 64
    ensures var u := (a - 0xF0) * 262144 + b * 4096 + c * 64 + d;
      Scalar(u) && Utf8(u) == [a as char, (0x80 + b) as char, (0x80 + c) as char, (0x80 + d) as char]
  {
    var v := (a - 0xF0) * 64 + b;
    var w := v * 64 + c;
    Bits(w * 64 + d, w, d);
    Bits(w, v, c);
    Bits(v, a - 0xF0, b);
    assert (w * 64 + d) / 4096 == v && (w * 64 + d) / 262144 == a - 0xF0;
  }

  lemma StartsUtf8(s: string)
    requires 1 <= |s| <= 4 && StartsWith(s, |s|)
    ensures Scalar(CodePoint(s)) && Utf8(CodePoint(s)) == s
  {
    if |s| == 2 {
      StartsTwo(s[0] as int, Low(s[1]));
    } else if |s| == 3 {
      StartsThree(s[0] as int, Low(s[1]), Low(s[2]));
    } else if |s| == 4 {
      StartsFour(s[0] as int, Low(s[1]), Low(s[2]), Low(s[3]));
    }
  }

  lemma ReplacementIs()
    ensures REPLACEMENT == Utf8(0xFFFD)
  {
  }

  ghost predicate Scalars(us: seq<int>) { forall i :: 0 <= i < |us| ==> Scalar(us[i]) }

  function Utf8All(us: seq<int>): string
    requires Scalars(us)
  {
    if us == [] then "" else Utf8(us[0]) + Utf8All(us[1..])
  }

  lemma {:induction false} AllValid(us: seq<int>)
    requires Scalars(us)
    ensures Valid(Utf8All(us))
  {
    if us != [] {
      AllValid(us[1..]);
      Utf8Starts(us[0]);
      RuneValid(Utf8(us[0]), |Utf8(us[0])|, Utf8All(us[1..]));
      assert Utf8(us[0])[..|Utf8(us[0])|] == Utf8(us[0]);
    }
  }

  ghost predicate IsUtf8(s: string, us: seq<int>) { Scalars(us) && Utf8All(us) == s }

  lemma Utf8Cons(s: string, n: nat, us: seq<int>)
    requires StartsWith(s, n) && IsUtf8(s[n..], us)
    ensures exists u :: IsUtf8(s, [u] + us)
  {
    StartsPrefix(s, n, s[..n]);
    StartsUtf8(s[..n]);
    var u := CodePoint(s[..n]);
    assert ([u] + us)[1..] == us && s == s[..n] + s[n..];
    assert IsUtf8(s, [u] + us);
  }

  lemma {:induction false} ValidAll(s: string)
    requires Valid(s)
    ensures exists us :: IsUtf8(s, us)
    decreases |s|
  {
    if s == [] {
      assert IsUtf8(s, []);
    } else {
      ValidAll(s[RuneLen(s)..]);
      var us :| IsUtf8(s[RuneLen(s)..], us);
      Utf8Cons(s, RuneLen(s), us);
    }
  }

  /** The valid strings are the UTF-8 encodings of the sequences of scalar values. */
  lemma ValidIsUtf8(s: string)
    ensures Valid(s) <==> exists us :: Scalars(us) && Utf8All(us) == s
  {
    if Valid(s) {
      ValidAll(s);
      var us :| IsUtf8(s, us);
      assert Scalars(us) && Utf8All(us) == s;
    }
    if us :| Scalars(us) && Utf8All(us) == s {
      AllValid(us);
    }
  }

  // ---------- ihash ----------

  /** Exclusive or of two bytes. */
  function Xor(a: nat, b: nat): (x: nat)
    requires a < 256 && b < 256
    ensures x < 256
  {
    ((a as bv8) ^ (b as bv8)) as nat
  }

  /** One step of 32-bit FNV-1a. */
  function HashStep(h: nat, c: char): nat {
    (h - h % 256 + Xor(h % 256, c as int % 256)) * 16777619 % 0x1_0000_0000
  }

  function HashFrom(s: string, h: nat): nat {
    if s == [] then h else HashFrom(s[1..], HashStep(h, s[0]))
  }

  function Ihash(s: string): nat { HashFrom(s, 2166136261) }

  lemma XorBytes()
    ensures Xor(0xC5, 0xC3) == 0x06 && Xor(0xC5, 0xC4) == 0x01
  {
  }

  /** Two one-byte keys in different partitions of three. */
  lemma TwoSlots()
    ensures Ihash(['\U{C3}']) % 3 == 0 && Ihash(['\U{C4}']) % 3 == 2
  {
    XorBytes();
    assert HashStep(2166136261, '\U{C3}') == 1175138418;
    assert HashStep(2166136261, '\U{C4}') == 1091250323;
    assert ['\U{C3}'][1..] == [] && ['\U{C4}'][1..] == [];
  }
}
