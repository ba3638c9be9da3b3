/** The JA4 fingerprint of internal/tlsfp/ja4.go: what it keeps of a hello and what it
    forgets. SHA-256 is a parameter: the first twelve characters of the digest of a text. */
module JA4 {
  import opened Wrappers
  import opened Ordering
  import opened Sequences
  import opened Bytes
  import opened Hellos

  type Digest = string -> string

  const NO_LIST := "000000000000"

  // ---------------------------------------------------------------- the code

  predicate Less(a: Code, b: Code) { a < b }

  function Max(codes: seq<Code>): Code
    requires codes != []
  {
    if |codes| == 1 then codes[0]
    else
      var m := Max(codes[..|codes| - 1]);
      if codes[|codes| - 1] > m then codes[|codes| - 1] else m
  }

  /** The highest version offered, or the header's when none is. */
  function Ceiling(h: Hello): Code {
    var versions := Plain(h.versions);
    if versions == [] then h.legacyVersion else Max(versions)
  }

  function VersionMark(v: Code): string {
    match v
    case 0x0304 => "13"
    case 0x0303 => "12"
    case 0x0302 => "11"
    case 0x0301 => "10"
    case 0x0300 => "s3"
    case 0x0002 => "s2"
    case 0x0001 => "s1"
    case _ => "00"
  }

  /** The first and the last character of the first protocol. */
  function AlpnMark(alpn: seq<seq<Byte>>): string {
    if alpn == [] || alpn[0] == [] then "00"
    else [alpn[0][0] as int as char, alpn[0][|alpn[0]| - 1] as int as char]
  }

  function Digit(d: nat): char
    requires d < 16
  {
    "0123456789abcdef"[d]
  }

  function TwoDigits(n: nat): string {
    var m := if n > 99 then 99 else n;
    [Digit(m / 10), Digit(m % 10)]
  }

  function Hex4(v: Code): (s: string)
    ensures |s| == 4
  {
    [Digit(v / 16 / 16 / 16), Digit(v / 16 / 16 % 16), Digit(v / 16 % 16), Digit(v % 16)]
  }

  function InHex(codes: seq<Code>): string
  {
    if codes == [] then ""
    else if |codes| == 1 then Hex4(codes[0])
    else Hex4(codes[0]) + "," + InHex(codes[1..])
  }

  function Truncated(digest: Digest, text: string): string {
    if text == "" then NO_LIST else digest(text)
  }

  /** Without the name and the protocols, which the first part already tells of. */
  function Unmarked(codes: seq<Code>): seq<Code> {
    if codes == [] then []
    else
      var n := |codes| - 1;
      Unmarked(codes[..n]) + if codes[n] in {EXT_SNI, EXT_ALPN} then [] else [codes[n]]
  }

  function Hashed(h: Hello): seq<Code> {
    Unmarked(Plain(h.extensions))
  }

  function CipherText(h: Hello): string {
    InHex(Sort(Less, Plain(h.ciphers)))
  }

  /** The extensions sorted, the signature algorithms as they came. */
  function ExtensionText(h: Hello): string {
    InHex(Sort(Less, Hashed(h))) + if Plain(h.algorithms) == [] then "" else "_" + InHex(Plain(h.algorithms))
  }

  function First(h: Hello): string {
    "t" + VersionMark(Ceiling(h)) + (if h.hasSni then "d" else "i") + TwoDigits(|Plain(h.ciphers)|)
    + TwoDigits(|Plain(h.extensions)|) + AlpnMark(h.alpn)
  }

  function Fingerprint(h: Hello, digest: Digest): string {
    First(h) + "_" + Truncated(digest, CipherText(h)) + "_" + Truncated(digest, ExtensionText(h))
  }

  /** Deletes from a local copy what the first part already tells of. */
  method DeleteMarks(codes: seq<Code>) returns (out: seq<Code>)
    ensures out == Unmarked(codes)
  {
    out := [];
    for i := 0 to |codes|
      invariant out == Unmarked(codes[..i])
    {
      TakeNext(codes, i);
      PushInit(codes[..i], codes[i]);
      if codes[i] in {EXT_SNI, EXT_ALPN} {
        AppendNothing(out, []);
        continue;
      }
      out := out + [codes[i]];
    }
    TakeAll(codes);
  }

  method Compute(h: Hello, digest: Digest) returns (s: string)
    ensures s == Fingerprint(h, digest)
  {
    var ciphers, _ := WithoutGrease(h.ciphers);
    var extensions, _ := WithoutGrease(h.extensions);
    var a := "t" + VersionMark(Ceiling(h)) + (if h.hasSni then "d" else "i") + TwoDigits(|ciphers|)
             + TwoDigits(|extensions|) + AlpnMark(h.alpn);
    var b := Truncated(digest, InHex(Sort(Less, ciphers)));
    extensions := DeleteMarks(extensions);
    var signatures, _ := WithoutGrease(h.algorithms);
    var text := InHex(Sort(Less, extensions));
    if |signatures| > 0 {
      text := text + "_" + InHex(signatures);
      Associate(InHex(Sort(Less, extensions)), "_", InHex(signatures));
    } else {
      AppendNothing(text, "");
    }
    return a + "_" + b + "_" + Truncated(digest, text);
  }

  // ---------------------------------------------------------------- GREASE

  /** The sixteen values of section 2 of RFC 8701, and no others. */
  lemma GreaseValues(v: Code)
    ensures IsGrease(v) <==> exists k | 0 <= k < 16 :: v == 0x0a0a + k * 0x1010
  {
    var high, low := v / 256, v % 256;
    if IsGrease(v) {
      var k := low / 16;
      assert low == 16 * k + 10;
      assert v == 0x0a0a + k * 0x1010;
    }
    if k :| 0 <= k < 16 && v == 0x0a0a + k * 0x1010 {
      assert v == 256 * (16 * k + 10) + (16 * k + 10);
      assert v / 256 == 16 * k + 10 && v % 256 == 16 * k + 10;
    }
  }

  lemma {:induction false} PlainConcat(a: seq<Code>, b: seq<Code>)
    ensures Plain(a + b) == Plain(a) + Plain(b)
  {
    if b == [] {
      AppendNothing(a, b);
      AppendNothing(Plain(a), Plain(b));
    } else {
      var n := |b| - 1;
      AppendInit(a, b);
      PushInit(a + b[..n], b[n]);
      PlainConcat(a, b[..n]);
      Associate(Plain(a), Plain(b[..n]), if IsGrease(b[n]) then [] else [b[n]]);
    }
  }

  /** A GREASE value mixed into a list, wherever it is, is not in the plain list. */
  lemma PlainIgnoresGrease(a: seq<Code>, g: Code, b: seq<Code>)
    requires IsGrease(g)
    ensures Plain(a + [g] + b) == Plain(a + b)
  {
    PlainConcat(a + [g], b);
    PlainConcat(a, [g]);
    PlainConcat(a, b);
    assert [g][..0] == [];
    AppendNothing(Plain(a), Plain([g]));
  }

  function KeptPlain(v: Code): seq<Code> {
    if IsGrease(v) then [] else [v]
  }

  function KeptUnmarked(v: Code): seq<Code> {
    if v in {EXT_SNI, EXT_ALPN} then [] else [v]
  }

  lemma {:induction false} PlainGathers(s: seq<Code>)
    ensures Plain(s) == Gather(s, KeptPlain)
  {
    if s != [] {
      PlainGathers(s[..|s| - 1]);
    }
  }

  lemma {:induction false} UnmarkedGathers(s: seq<Code>)
    ensures Unmarked(s) == Gather(s, KeptUnmarked)
  {
    if s != [] {
      UnmarkedGathers(s[..|s| - 1]);
    }
  }

  /** Permuting a list permutes what is left of it. */
  lemma PlainPermuted(a: seq<Code>, b: seq<Code>)
    requires multiset(a) == multiset(b)
    ensures multiset(Plain(a)) == multiset(Plain(b))
  {
    PlainGathers(a);
    PlainGathers(b);
    GatherAnyOrder(a, b, KeptPlain);
  }

  lemma UnmarkedPermuted(a: seq<Code>, b: seq<Code>)
    requires multiset(a) == multiset(b)
    ensures multiset(Unmarked(a)) == multiset(Unmarked(b))
  {
    UnmarkedGathers(a);
    UnmarkedGathers(b);
    GatherAnyOrder(a, b, KeptUnmarked);
  }

  // ---------------------------------------------------------------- canonicity

  lemma SortsAlike(a: seq<Code>, b: seq<Code>)
    ensures Sort(Less, a) == Sort(Less, b) <==> multiset(a) == multiset(b)
  {
    if multiset(a) == multiset(b) {
      SortCanonical(Less, a, b);
    }
  }

  lemma {:induction false} MaxIs(codes: seq<Code>)
    requires codes != []
    ensures Max(codes) in codes && forall v | v in codes :: v <= Max(codes)
  {
    if |codes| > 1 {
      var n := |codes| - 1;
      MaxIs(codes[..n]);
      LastApart(codes);
    }
  }

  lemma MaxPermuted(a: seq<Code>, b: seq<Code>)
    requires multiset(a) == multiset(b) && a != []
    ensures b != [] && Max(a) == Max(b)
  {
    SameMembers(a, b);
    MaxIs(a);
    MaxIs(b);
    assert Max(a) in Members(a) && Max(b) in Members(b);
  }

  /** Two hellos that differ in nothing but the order of their ciphers, extensions and
      versions, and in GREASE. */
  ghost predicate Alike(g: Hello, h: Hello) {
    && multiset(Plain(g.ciphers)) == multiset(Plain(h.ciphers))
    && multiset(Plain(g.extensions)) == multiset(Plain(h.extensions))
    && multiset(Plain(g.versions)) == multiset(Plain(h.versions))
    && Plain(g.algorithms) == Plain(h.algorithms)
    && g.legacyVersion == h.legacyVersion && g.hasSni == h.hasSni && g.alpn == h.alpn
  }

  lemma VersionAlike(g: Hello, h: Hello)
    requires multiset(Plain(g.versions)) == multiset(Plain(h.versions)) && g.legacyVersion == h.legacyVersion
    ensures Ceiling(g) == Ceiling(h)
  {
    SameMembers(Plain(g.versions), Plain(h.versions));
    if Plain(g.versions) != [] {
      MaxPermuted(Plain(g.versions), Plain(h.versions));
    }
  }

  lemma FirstAlike(g: Hello, h: Hello)
    requires Alike(g, h)
    ensures First(g) == First(h)
  {
    VersionAlike(g, h);
    SameMembers(Plain(g.ciphers), Plain(h.ciphers));
    SameMembers(Plain(g.extensions), Plain(h.extensions));
  }

  /** Such hellos have one fingerprint, whatever the digest. */
  lemma Canonical(g: Hello, h: Hello, digest: Digest)
    requires Alike(g, h)
    ensures Fingerprint(g, digest) == Fingerprint(h, digest)
  {
    FirstAlike(g, h);
    SortsAlike(Plain(g.ciphers), Plain(h.ciphers));
    UnmarkedPermuted(Plain(g.extensions), Plain(h.extensions));
    SortsAlike(Hashed(g), Hashed(h));
  }

  // ---------------------------------------------------------------- the hashed texts

  lemma Hex4Exact(a: Code, b: Code)
    requires Hex4(a) == Hex4(b)
    ensures a == b
  {
    assert Hex4(a)[0] == Hex4(b)[0] && Hex4(a)[1] == Hex4(b)[1] && Hex4(a)[2] == Hex4(b)[2] && Hex4(a)[3] == Hex4(b)[3];
    DigitExact(a / 16 / 16 / 16, b / 16 / 16 / 16);
    DigitExact(a / 16 / 16 % 16, b / 16 / 16 % 16);
    DigitExact(a / 16 % 16, b / 16 % 16);
    DigitExact(a % 16, b % 16);
  }

  lemma DigitExact(a: nat, b: nat)
    requires a < 16 && b < 16 && Digit(a) == Digit(b)
    ensures a == b
  {
  }

  lemma {:induction false} HexLength(codes: seq<Code>)
    ensures |InHex(codes)| == if codes == [] then 0 else 5 * |codes| - 1
  {
    if |codes| > 1 {
      HexLength(codes[1..]);
    }
  }

  lemma {:induction false} HexExact(a: seq<Code>, b: seq<Code>)
    requires InHex(a) == InHex(b)
    ensures a == b
  {
    HexLength(a);
    HexLength(b);
    if a != [] {
      HexHead(a);
      HexHead(b);
      Hex4Exact(a[0], b[0]);
      if |a| > 1 {
        HexExact(a[1..], b[1..]);
      }
      assert a == [a[0]] + a[1..] && b == [b[0]] + b[1..];
    }
  }

  lemma HexHead(codes: seq<Code>)
    requires codes != []
    ensures |InHex(codes)| >= 4 && InHex(codes)[..4] == Hex4(codes[0])
    ensures |codes| > 1 ==> |InHex(codes)| >= 5 && InHex(codes)[5..] == InHex(codes[1..])
  {
  }

  lemma {:induction false} NoMark(codes: seq<Code>)
    ensures '_' !in InHex(codes)
  {
    if codes != [] {
      assert '_' !in Hex4(codes[0]);
      NoMark(codes[1..]);
    }
  }

  /** The cipher text tells the ciphers apart as far as their order and GREASE go, and no further. */
  lemma CipherTextExact(g: Hello, h: Hello)
    ensures CipherText(g) == CipherText(h) <==> multiset(Plain(g.ciphers)) == multiset(Plain(h.ciphers))
  {
    SortsAlike(Plain(g.ciphers), Plain(h.ciphers));
    if CipherText(g) == CipherText(h) {
      HexExact(Sort(Less, Plain(g.ciphers)), Sort(Less, Plain(h.ciphers)));
    }
  }

  lemma Parted(a: string, b: string, c: string, d: string)
    requires '_' !in a && '_' !in c && a + "_" + b == c + "_" + d
    ensures a == c && b == d
  {
    var x, y := a + "_" + b, c + "_" + d;
    assert x[|a|] == '_' && y[|c|] == '_';
    assert forall i | 0 <= i < |a| :: x[i] == a[i];
    assert forall i | 0 <= i < |c| :: y[i] == c[i];
    assert |a| == |c|;
    assert a == x[..|a|] && c == y[..|c|] && b == x[|a| + 1..] && d == y[|c| + 1..];
  }

  /** The extension text keeps the order of the signature algorithms and forgets that of the
      extensions, and which of the name and the protocols were there. */
  lemma ExtensionTextExact(g: Hello, h: Hello)
    ensures ExtensionText(g) == ExtensionText(h)
            <==> multiset(Hashed(g)) == multiset(Hashed(h)) && Plain(g.algorithms) == Plain(h.algorithms)
  {
    SortsAlike(Hashed(g), Hashed(h));
    if ExtensionText(g) == ExtensionText(h) {
      var a, c := Sort(Less, Hashed(g)), Sort(Less, Hashed(h));
      var b, d := Plain(g.algorithms), Plain(h.algorithms);
      NoMark(a);
      NoMark(c);
      OneMark(InHex(a), b);
      OneMark(InHex(c), d);
      assert b == [] <==> d == [];
      if b == [] {
        AppendNothing(InHex(a), "");
        AppendNothing(InHex(c), "");
      } else {
        Associate(InHex(a), "_", InHex(b));
        Associate(InHex(c), "_", InHex(d));
        Parted(InHex(a), InHex(b), InHex(c), InHex(d));
        HexExact(b, d);
      }
      HexExact(a, c);
    }
  }

  lemma OneMark(text: string, codes: seq<Code>)
    requires '_' !in text
    ensures '_' in text + (if codes == [] then "" else "_" + InHex(codes)) <==> codes != []
  {
    if codes != [] {
      assert (text + ("_" + InHex(codes)))[|text|] == '_';
    }
  }

  // ---------------------------------------------------------------- the format

  /** The number a hexadecimal digit stands for. */
  function ValueOf(c: char): int {
    if '0' <= c <= '9' then c as int - 48 else if 'a' <= c <= 'f' then c as int - 87 else -1
  }

  lemma DigitStands(d: nat)
    requires d < 16
    ensures ValueOf(Digit(d)) == d
  {
  }

  /** Four digits, the highest first. */
  ghost predicate Writes(s: string, v: Code) {
    && |s| == 4 && (forall i | 0 <= i < 4 :: 0 <= ValueOf(s[i]) < 16)
    && v == ((ValueOf(s[0]) * 16 + ValueOf(s[1])) * 16 + ValueOf(s[2])) * 16 + ValueOf(s[3])
  }

  lemma Hex4Writes(v: Code)
    ensures Writes(Hex4(v), v)
  {
    DigitStands(v / 16 / 16 / 16);
    DigitStands(v / 16 / 16 % 16);
    DigitStands(v / 16 % 16);
    DigitStands(v % 16);
  }

  /** A list of codes is written as four digits each, with commas between them. */
  lemma {:induction false} HexReads(codes: seq<Code>, i: nat)
    requires i < |codes|
    ensures |InHex(codes)| == 5 * |codes| - 1
    ensures Writes(InHex(codes)[5 * i..5 * i + 4], codes[i])
    ensures i + 1 < |codes| ==> InHex(codes)[5 * i + 4] == ','
  {
    HexLength(codes);
    if i == 0 {
      FirstHex(codes);
    } else {
      HexReads(codes[1..], i - 1);
      LaterHex(codes, 5 * (i - 1));
    }
  }

  lemma FirstHex(codes: seq<Code>)
    requires codes != []
    ensures |InHex(codes)| >= 4 && Writes(InHex(codes)[..4], codes[0])
    ensures 1 < |codes| ==> |InHex(codes)| > 4 && InHex(codes)[4] == ','
  {
    Hex4Writes(codes[0]);
    assert InHex(codes)[..4] == Hex4(codes[0]);
  }

  lemma LaterHex(codes: seq<Code>, at: nat)
    requires |codes| > 1 && at + 4 <= |InHex(codes[1..])|
    ensures |InHex(codes)| == 5 + |InHex(codes[1..])|
    ensures InHex(codes)[at + 5..at + 9] == InHex(codes[1..])[at..at + 4]
    ensures at + 4 < |InHex(codes[1..])| ==> InHex(codes)[at + 9] == InHex(codes[1..])[at + 4]
  {
  }

  /** A count in two decimal digits, 99 for all that is more. */
  ghost predicate Counts(s: string, n: nat) {
    && |s| == 2 && 0 <= ValueOf(s[0]) < 10 && 0 <= ValueOf(s[1]) < 10
    && 10 * ValueOf(s[0]) + ValueOf(s[1]) == if n > 99 then 99 else n
  }

  lemma DigitsCount(n: nat)
    ensures Counts(TwoDigits(n), n)
  {
    var m := if n > 99 then 99 else n;
    DigitStands(m / 10);
    DigitStands(m % 10);
  }

  /** The first part: ten characters, if the version has a mark, saying that it is TCP, the
      version, whether a name was given, how many ciphers and extensions there are, and the
      ends of the first protocol. */
  lemma FirstReads(h: Hello)
    ensures var s := First(h);
            && |s| == 10 && s[0] == 't' && s[1..3] == VersionMark(Ceiling(h)) && s[3] == (if h.hasSni then 'd' else 'i')
            && Counts(s[4..6], |Plain(h.ciphers)|) && Counts(s[6..8], |Plain(h.extensions)|)
            && (h.alpn == [] || h.alpn[0] == [] ==> s[8..] == "00")
            && (h.alpn != [] && h.alpn[0] != [] ==>
                  s[8] as int == h.alpn[0][0] as int && s[9] as int == h.alpn[0][|h.alpn[0]| - 1] as int)
  {
    var version, name := VersionMark(Ceiling(h)), if h.hasSni then "d" else "i";
    var ciphers, extensions := TwoDigits(|Plain(h.ciphers)|), TwoDigits(|Plain(h.extensions)|);
    DigitsCount(|Plain(h.ciphers)|);
    DigitsCount(|Plain(h.extensions)|);
    var s := First(h);
    assert s == "t" + version + name + ciphers + extensions + AlpnMark(h.alpn);
    assert s[1..3] == version && s[4..6] == ciphers && s[6..8] == extensions && s[8..] == AlpnMark(h.alpn);
  }

  /** The version is the highest of those offered, and the one of the header when none is. */
  lemma CeilingIs(h: Hello)
    ensures Plain(h.versions) == [] ==> Ceiling(h) == h.legacyVersion
    ensures Plain(h.versions) != [] ==>
              Ceiling(h) in Plain(h.versions) && forall v | v in Plain(h.versions) :: v <= Ceiling(h)
  {
    if Plain(h.versions) != [] {
      MaxIs(Plain(h.versions));
    }
  }

  ghost predicate Ordered(codes: seq<Code>) {
    forall i, j | 0 <= i < j < |codes| :: codes[i] <= codes[j]
  }

  lemma CodesAscend(codes: seq<Code>)
    ensures Ordered(Sort(Less, codes))
  {
    SortAscending(Less, codes, Members(codes));
    assert forall i, j | 0 <= i < j < |codes| :: !Less(Sort(Less, codes)[j], Sort(Less, codes)[i]);
  }

  /** The three parts: the ciphers in ascending order, written out and hashed; the extensions
      without name and protocols in ascending order, and behind an underscore the signature
      algorithms in their own; GREASE values nowhere; and zeros for what is empty. */
  lemma PartsRead(h: Hello, digest: Digest) returns (ciphers: seq<Code>, extensions: seq<Code>)
    ensures Ordered(ciphers) && multiset(ciphers) == multiset(Plain(h.ciphers))
    ensures Ordered(extensions)
    ensures forall v: Code :: multiset(extensions)[v] == if v in {0, 16} then 0 else multiset(Plain(h.extensions))[v]
    ensures var algorithms := Plain(h.algorithms);
            var second := if ciphers == [] then "000000000000" else digest(InHex(ciphers));
            var text := if algorithms == [] then InHex(extensions) else InHex(extensions) + "_" + InHex(algorithms);
            Fingerprint(h, digest)
            == First(h) + "_" + second + "_"
               + if extensions == [] && algorithms == [] then "000000000000" else digest(text)
  {
    ciphers, extensions := Sort(Less, Plain(h.ciphers)), Sort(Less, Hashed(h));
    CodesAscend(Plain(h.ciphers));
    CodesAscend(Hashed(h));
    HexLength(ciphers);
    HexLength(extensions);
    AppendNothing(InHex(extensions), "");
    forall v: Code
      ensures multiset(extensions)[v] == if v in {0, 16} then 0 else multiset(Plain(h.extensions))[v]
    {
      UnmarkedCount(Plain(h.extensions), v);
    }
    Associate(InHex(extensions), "_", InHex(Plain(h.algorithms)));
  }

  lemma {:induction false} UnmarkedCount(codes: seq<Code>, v: Code)
    ensures multiset(Unmarked(codes))[v] == if v in {EXT_SNI, EXT_ALPN} then 0 else multiset(codes)[v]
  {
    if codes != [] {
      UnmarkedCount(codes[..|codes| - 1], v);
      LastApart(codes);
    }
  }
}
