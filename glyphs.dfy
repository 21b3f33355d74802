/** The glyph set and its naming scheme: the punctuation table of
    `get_ascii_map`, the character-to-base-identifier rule shared by the asset
    generator and the text compiler, and the fixed enumeration of glyphs that
    decides which atlas cell each glyph gets. */
module Glyphs {
  import opened Decimal

  datatype Option<T> = None | Some(value: T)

  /** One glyph of the generated set: its base identifier and the character drawn. */
  datatype Glyph = Glyph(base: string, ch: char)

  predicate IsUpper(c: char) { 'A' <= c <= 'Z' }
  predicate IsLower(c: char) { 'a' <= c <= 'z' }

  /** The punctuation table: code point to two-letter mnemonic, in the
      insertion order of the dictionary (which is also its iteration order). */
  const AsciiTable: seq<(int, string)> :=
    [(32, "sp"), (33, "ex"), (34, "qu"), (35, "ha"), (36, "dl"), (37, "pc"), (38, "am"),
     (39, "ap"), (40, "lp"), (41, "rp"), (42, "as"), (43, "pl"), (44, "cm"), (45, "da"),
     (46, "dt"), (47, "sl"), (58, "cl"), (59, "sc"), (60, "lt"), (61, "eq"), (62, "gt"),
     (63, "qm"), (64, "at"), (91, "lb"), (92, "bs"), (93, "rb"), (94, "cr"), (95, "un"),
     (96, "gr"), (123, "lc"), (124, "pi"), (125, "rc"), (126, "ti")]

  /** A printable ASCII code point that is neither a letter nor a digit. */
  predicate IsPunctuationCode(code: int) {
    32 <= code < 48 || 58 <= code < 65 || 91 <= code < 97 || 123 <= code < 127
  }

  predicate IsMnemonic(m: string) {
    |m| == 2 && IsLower(m[0]) && IsLower(m[1])
  }

  /** The table is a well-formed dictionary of 33 entries: every key a
      punctuation code point, every value a two-letter lower-case mnemonic. */
  lemma AsciiTableEntries()
    ensures |AsciiTable| == 33
    ensures forall k :: 0 <= k < |AsciiTable| ==>
      IsPunctuationCode(AsciiTable[k].0) && IsMnemonic(AsciiTable[k].1)
  {
  }

  /** Keys are in increasing order, so no key occurs twice. */
  lemma AsciiTableKeysIncrease()
    ensures forall j, k :: 0 <= j < k < |AsciiTable| ==> AsciiTable[j].0 < AsciiTable[k].0
  {
  }

  /** No mnemonic is used twice. */
  lemma AsciiTableMnemonicsDistinct()
    ensures forall j, k :: 0 <= j < k < |AsciiTable| ==> AsciiTable[j].1 != AsciiTable[k].1
  {
    MnemonicsDistinctHead();
    MnemonicsDistinctMiddle();
    MnemonicsDistinctTail();
  }

  /** The mnemonics of the first eleven entries are pairwise distinct. */
  lemma MnemonicsDistinctHead()
    ensures forall j, k :: 0 <= j < k < 11 ==> AsciiTable[j].1 != AsciiTable[k].1
  {
  }

  /** The mnemonics of entries 11 to 21 differ from every earlier one. */
  lemma MnemonicsDistinctMiddle()
    ensures forall j, k :: 0 <= j < k && 11 <= k < 22 ==> AsciiTable[j].1 != AsciiTable[k].1
  {
  }

  /** The mnemonics of entries 22 to 32 differ from every earlier one. */
  lemma MnemonicsDistinctTail()
    ensures forall j, k :: 0 <= j < k && 22 <= k < 33 ==> AsciiTable[j].1 != AsciiTable[k].1
  {
  }

  /** `get_ascii_map().get(code)`: the mnemonic of a code point, if the table has one. */
  function Lookup(code: int): (r: Option<string>)
    ensures r.Some? <==> exists k :: 0 <= k < |AsciiTable| && AsciiTable[k].0 == code
    ensures forall k :: 0 <= k < |AsciiTable| && AsciiTable[k].0 == code ==> r == Some(AsciiTable[k].1)
    ensures r.Some? ==> IsPunctuationCode(code) && IsMnemonic(r.value)
  {
    AsciiTableEntries();
    AsciiTableKeysIncrease();
    LookupFrom(code, 0)
  }

  function LookupFrom(code: int, from: nat): (r: Option<string>)
    requires from <= |AsciiTable|
    ensures r.Some? <==> exists k :: from <= k < |AsciiTable| && AsciiTable[k].0 == code
    ensures r.Some? ==> exists k :: from <= k < |AsciiTable| && AsciiTable[k] == (code, r.value)
    decreases |AsciiTable| - from
  {
    if from == |AsciiTable| then None
    else if AsciiTable[from].0 == code then Some(AsciiTable[from].1)
    else LookupFrom(code, from + 1)
  }

  /** Reverse lookup: the code point whose mnemonic is `m`. */
  function CodeOfMnemonic(m: string): (r: Option<int>)
    ensures forall k :: 0 <= k < |AsciiTable| && AsciiTable[k].1 == m ==> r == Some(AsciiTable[k].0)
    ensures r.None? ==> forall k :: 0 <= k < |AsciiTable| ==> AsciiTable[k].1 != m
  {
    AsciiTableMnemonicsDistinct();
    CodeOfMnemonicFrom(m, 0)
  }

  function CodeOfMnemonicFrom(m: string, from: nat): (r: Option<int>)
    requires from <= |AsciiTable|
    ensures r.None? ==> forall k :: from <= k < |AsciiTable| ==> AsciiTable[k].1 != m
    ensures r.Some? ==> exists k :: from <= k < |AsciiTable| && AsciiTable[k] == (r.value, m)
    decreases |AsciiTable| - from
  {
    if from == |AsciiTable| then None
    else if AsciiTable[from].1 == m then Some(AsciiTable[from].0)
    else CodeOfMnemonicFrom(m, from + 1)
  }

  /** `char.upper()` on a lower-case ASCII letter. */
  function ToUpper(c: char): (u: char)
    requires IsLower(c)
    ensures IsUpper(u) && u as int + 32 == c as int
  {
    (c as int - 32) as char
  }

  /** The characters that have a glyph of their own: ASCII letters, digits
      and the keys of the punctuation table. */
  predicate Covered(c: char) {
    IsUpper(c) || IsLower(c) || IsDigit(c) || Lookup(c as int).Some?
  }

  /** The shape every base identifier has: `ui` followed by an upper-case
      letter or a digit, by `L` and an upper-case letter, or by `_` and a
      mnemonic. */
  predicate IsBase(b: string) {
    |b| >= 3 && b[0] == 'u' && b[1] == 'i' &&
    ((|b| == 3 && (IsUpper(b[2]) || IsDigit(b[2]))) ||
     (|b| == 4 && b[2] == 'L' && IsUpper(b[3])) ||
     (|b| == 5 && b[2] == '_' && IsMnemonic(b[3..])))
  }

  /** The resolver: upper-case letters give `ui` + letter, lower-case letters
      `uiL` + the letter upper-cased, digits `ui` + digit, and everything else
      `ui_` + its mnemonic, with `un` for a character the table lacks. */
  function BaseOf(c: char): (b: string)
    ensures IsBase(b)
    ensures !Covered(c) ==> b == "ui_un"
  {
    if IsUpper(c) then "ui" + [c]
    else if IsLower(c) then "uiL" + [ToUpper(c)]
    else if IsDigit(c) then "ui" + [c]
    else "ui_" + match Lookup(c as int) case Some(m) => m case None => "un"
  }

  /** Decodes a base identifier back to the character it was made from. */
  function CharOfBase(b: string): Option<char>
  {
    if |b| == 3 && b[..2] == "ui" && (IsUpper(b[2]) || IsDigit(b[2])) then Some(b[2])
    else if |b| == 4 && b[..3] == "uiL" && IsUpper(b[3]) then Some((b[3] as int + 32) as char)
    else if |b| >= 3 && b[..3] == "ui_" then
      match CodeOfMnemonic(b[3..])
      case Some(code) => if 0 <= code < 0xD800 then Some(code as char) else None
      case None => None
    else None
  }

  /** Decoding a resolved identifier gives the character back for every
      covered character, and the underscore for every other one, since the
      fallback `ui_un` is the underscore's own identifier. */
  lemma ResolveRoundTrip(c: char)
    ensures CharOfBase(BaseOf(c)) == Some(if Covered(c) then c else '_')
  {
    var b := BaseOf(c);
    if IsUpper(c) || IsDigit(c) {
      assert b[..2] == "ui";
    } else if IsLower(c) {
      assert b[..3] == "uiL";
    } else {
      assert b[..3] == "ui_" && b[3..] == b[3..5];
      if Covered(c) {
        var k :| 0 <= k < |AsciiTable| && AsciiTable[k].0 == c as int;
        assert b[3..] == AsciiTable[k].1;
      } else {
        assert AsciiTable[27] == (95, "un");
        assert b[3..] == AsciiTable[27].1;
      }
    }
  }

  /** Distinct covered characters get distinct base identifiers. */
  lemma BaseOfInjective(c1: char, c2: char)
    requires Covered(c1) && Covered(c2) && BaseOf(c1) == BaseOf(c2)
    ensures c1 == c2
  {
    ResolveRoundTrip(c1);
    ResolveRoundTrip(c2);
  }

  /** The name of variant `i` of a glyph: the base identifier followed by the
      decimal index. */
  function VariantName(base: string, i: nat): (r: string)
    ensures |base| < |r| && base <= r
  {
    base + NatToString(i)
  }

  /** How many leading characters of a variant name are its base identifier. */
  function BaseLength(name: string): nat
  {
    if |name| >= 3 && name[2] == '_' then 5
    else if |name| >= 4 && name[2] == 'L' && IsUpper(name[3]) then 4
    else 3
  }

  lemma BaseLengthOfVariantName(base: string, i: nat)
    requires IsBase(base)
    ensures BaseLength(VariantName(base, i)) == |base|
  {
    var name := VariantName(base, i);
    var digits := NatToString(i);
    assert name[|base|] == digits[0];
  }

  /** Variant names never collide: the name determines both the base
      identifier and the variant index. */
  lemma VariantNameInjective(b1: string, i1: nat, b2: string, i2: nat)
    requires IsBase(b1) && IsBase(b2)
    ensures VariantName(b1, i1) == VariantName(b2, i2) ==> b1 == b2 && i1 == i2
  {
    if VariantName(b1, i1) == VariantName(b2, i2) {
      var name := VariantName(b1, i1);
      BaseLengthOfVariantName(b1, i1);
      BaseLengthOfVariantName(b2, i2);
      assert b1 == name[..|b1|] && NatToString(i1) == name[|b1|..];
      assert b2 == name[..|b2|] && NatToString(i2) == name[|b2|..];
      NatToStringInjective(i1, i2);
    }
  }

  /** The glyph list of `generate`: A-Z, then a-z, then 0-9, then the
      punctuation table in table order. */
  function GlyphList(): seq<Glyph>
  {
    AsciiTableEntries();
    seq(26, i requires 0 <= i < 26 => UpperGlyph(i)) +
    seq(26, i requires 0 <= i < 26 => LowerGlyph(i)) +
    seq(10, i requires 0 <= i < 10 => DigitGlyph(i)) +
    seq(|AsciiTable|, k requires 0 <= k < |AsciiTable| => PunctuationGlyph(k))
  }

  function UpperGlyph(i: nat): Glyph
    requires i < 26
  {
    var c := (65 + i) as char;
    Glyph("ui" + [c], c)
  }

  function LowerGlyph(i: nat): Glyph
    requires i < 26
  {
    var c := (97 + i) as char;
    Glyph("uiL" + [ToUpper(c)], c)
  }

  function DigitGlyph(i: nat): Glyph
    requires i < 10
  {
    var c := (48 + i) as char;
    Glyph("ui" + [c], c)
  }

  function PunctuationGlyph(k: nat): Glyph
    requires k < |AsciiTable|
  {
    AsciiTableEntries();
    Glyph("ui_" + AsciiTable[k].1, AsciiTable[k].0 as char)
  }

  /** The glyph at position `k` of the enumeration, class by class. */
  lemma GlyphAt(k: nat)
    requires k < |GlyphList()|
    ensures |GlyphList()| == 95
    ensures GlyphList()[k] ==
      if k < 26 then UpperGlyph(k)
      else if k < 52 then LowerGlyph(k - 26)
      else if k < 62 then DigitGlyph(k - 52)
      else PunctuationGlyph(k - 62)
  {
    AsciiTableEntries();
  }

  /** The position in the table of a code point that is one of its keys. */
  function KeyIndex(code: int): (k: nat)
    requires Lookup(code).Some?
    ensures k < |AsciiTable| && AsciiTable[k].0 == code
  {
    KeyIndexFrom(code, 0)
  }

  function KeyIndexFrom(code: int, from: nat): (k: nat)
    requires from <= |AsciiTable|
    requires exists k :: from <= k < |AsciiTable| && AsciiTable[k].0 == code
    ensures from <= k < |AsciiTable| && AsciiTable[k].0 == code
    decreases |AsciiTable| - from
  {
    if AsciiTable[from].0 == code then from else KeyIndexFrom(code, from + 1)
  }

  /** Where a covered character sits in the enumeration: the glyph there
      draws that character under the identifier the resolver gives it. */
  function GlyphIndex(c: char): (k: nat)
    requires Covered(c)
    ensures k < |GlyphList()| && GlyphList()[k].ch == c && GlyphList()[k].base == BaseOf(c)
  {
    AsciiTableEntries();
    var k :=
      if IsUpper(c) then c as int - 65
      else if IsLower(c) then 26 + (c as int - 97)
      else if IsDigit(c) then 52 + (c as int - 48)
      else 62 + KeyIndex(c as int);
    GlyphAt(k);
    k
  }

  /** Every glyph of the enumeration draws a covered character, under the
      identifier the resolver gives that character, and the enumeration
      holds each character once: decoding its position gives `k` back. */
  lemma GlyphListResolves(k: nat)
    requires k < |GlyphList()|
    ensures Covered(GlyphList()[k].ch)
    ensures GlyphList()[k].base == BaseOf(GlyphList()[k].ch)
    ensures GlyphIndex(GlyphList()[k].ch) == k
  {
    GlyphAt(k);
    if k >= 62 {
      PunctuationResolves(k - 62);
    }
  }

  /** A punctuation glyph resolves through its own table entry, the only
      one with its code point. */
  lemma PunctuationResolves(t: nat)
    requires t < |AsciiTable|
    ensures var g := PunctuationGlyph(t);
      Lookup(g.ch as int) == Some(AsciiTable[t].1) && KeyIndex(g.ch as int) == t
  {
    AsciiTableEntries();
    AsciiTableKeysIncrease();
  }

  /** The enumeration has 26 + 26 + 10 + 33 glyphs and no two of them share
      a base identifier. */
  lemma GlyphBasesDistinct(j: nat, k: nat)
    requires j < k < |GlyphList()|
    ensures |GlyphList()| == 95
    ensures GlyphList()[j].base != GlyphList()[k].base
  {
    GlyphAt(k);
    GlyphListResolves(j);
    GlyphListResolves(k);
    if GlyphList()[j].base == GlyphList()[k].base {
      BaseOfInjective(GlyphList()[j].ch, GlyphList()[k].ch);
    }
  }

  /** Every character, covered or not, resolves to the identifier of some
      glyph of the enumeration; an uncovered one to that of the underscore. */
  lemma ResolvedBaseIsGlyph(c: char)
    ensures exists k :: 0 <= k < |GlyphList()| && GlyphList()[k].base == BaseOf(c)
  {
    if Covered(c) {
      var k := GlyphIndex(c);
    } else {
      AsciiTableEntries();
      GlyphAt(89);
      assert GlyphList()[89].base == "ui_" + AsciiTable[27].1;
    }
  }

  /** The loops at the start of `generate` that build the glyph list. */
  method EnumerateGlyphs() returns (chars: seq<Glyph>)
    ensures chars == GlyphList()
  {
    AsciiTableEntries();
    chars := [];
    for i := 65 to 91
      invariant chars == GlyphList()[..i - 65]
    {
      GlyphAt(i - 65);
      chars := chars + [Glyph("ui" + [i as char], i as char)];
    }
    for i := 97 to 123
      invariant chars == GlyphList()[..26 + (i - 97)]
    {
      GlyphAt(26 + (i - 97));
      chars := chars + [Glyph("uiL" + [ToUpper(i as char)], i as char)];
    }
    for i := 48 to 58
      invariant chars == GlyphList()[..52 + (i - 48)]
    {
      GlyphAt(52 + (i - 48));
      chars := chars + [Glyph("ui" + [i as char], i as char)];
    }
    for t := 0 to |AsciiTable|
      invariant chars == GlyphList()[..62 + t]
    {
      GlyphAt(62 + t);
      var (code, name) := AsciiTable[t];
      chars := chars + [Glyph("ui_" + name, code as char)];
    }
  }
}
