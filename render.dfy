/** The text of the generated files: a descriptor written by `write_odf`,
    and `spritea.sta` as its registry lines joined by newlines.  Each
    rendering comes with the parser that reads it back. */
module Render {
  import opened Decimal
  import opened Glyphs
  import opened Sheet
  import opened Text

  /** Text that can stand as one whitespace-separated, quoted field of a
      line: no space, newline or double quote. */
  predicate Plain(s: string) {
    Free(s, ' ') && Free(s, '\n') && Free(s, '"')
  }

  /** Variant names are plain: letters, digits and `_` only. */
  lemma VariantNamePlain(b: string, i: nat)
    requires IsBase(b)
    ensures Plain(VariantName(b, i))
  {
    var name := VariantName(b, i);
    assert name == b + NatToString(i);
    forall k | 0 <= k < |name|
      ensures name[k] != ' ' && name[k] != '\n' && name[k] != '"'
    {
      if k >= |b| {
        assert IsDigit(NatToString(i)[k - |b|]);
      } else if k >= 3 && b[2] == '_' {
        assert IsMnemonic(b[3..]) && b[k] == b[3..][k - 3];
      }
    }
  }

  // ---------------------------------------------------------------------
  // Descriptors

  /** The text of a descriptor before its name. */
  const OdfHead: string :=
    "[ExplosionClass]\nclassLabel=\"explosion\"\nparticleTypes=1\nparticleClass1=\""
  /** The text between the name and the texture name: the `.l"` closing the
      particle class, then the fixed sprite settings. */
  const OdfMiddle: string :=
    ".l\"" + "\nparticleCount1=1\n\n[l]\nrenderBase=\"draw_sprite\"\nsimulateBase=\"sim_null\"\ntextureName=\""
  /** The text after the texture name: the quote closing it, then the fixed
      colour, radius and timing settings. */
  const OdfTail: string :=
    "\"" + "\nstartColor=\"255 255 255 255\"\nfinishColor=\"255 255 255 255\"\nstartRadius=1.2\nfinishRadius=1.2\nanimateTime=1e30\nlifeTime=0.5\n"

  /** `write_odf(out, name, tex)`: a one-particle explosion whose particle
      class is `<name>.l` and whose sprite draws texture `tex`. */
  function OdfText(d: Descriptor): (r: string)
    ensures OdfHead + d.name <= r
  {
    OdfHead + (d.name + (OdfMiddle + (d.textureName + OdfTail)))
  }

  /** The index of the first double quote of `s` at or after `i`, or `|s|`
      if there is none. */
  function QuoteFrom(s: string, i: nat): (k: nat)
    requires i <= |s|
    ensures i <= k <= |s|
    ensures k < |s| ==> s[k] == '"'
    decreases |s| - i
  {
    if i == |s| || s[i] == '"' then i else QuoteFrom(s, i + 1)
  }

  /** No quote comes before the one `QuoteFrom` finds. */
  lemma {:induction false} QuoteFromFirst(s: string, i: nat)
    requires i <= |s|
    ensures forall j :: i <= j < QuoteFrom(s, i) ==> s[j] != '"'
    decreases |s| - i
  {
    if i < |s| && s[i] != '"' {
      QuoteFromFirst(s, i + 1);
    }
  }

  /** A quote with none before it is the one `QuoteFrom` finds. */
  lemma {:induction false} QuoteAt(s: string, i: nat, k: nat)
    requires i <= k < |s| && s[k] == '"'
    requires forall j :: i <= j < k ==> s[j] != '"'
    ensures QuoteFrom(s, i) == k
    decreases k - i
  {
    if i < k {
      QuoteAt(s, i + 1, k);
    }
  }

  /** Reads back the two fields of a text laid out as
      `head + f1 + middle + f2 + tail`: `f1` runs up to the first quote of
      `middle`, `f2` up to the next quote after `middle`. */
  function ParseFramed(t: string, head: string, middle: string): Option<(string, string)>
  {
    if |t| < |head| then None
    else
      var r := t[|head|..];
      var p, q := QuoteFrom(middle, 0), QuoteFrom(r, 0);
      if q < p || |r| < q - p + |middle| then None
      else
        var f1, r2 := r[..q - p], r[q - p + |middle|..];
        Some((f1, r2[..QuoteFrom(r2, 0)]))
  }

  /** Reads a descriptor's name and texture name back from its text, and
      accepts the text only if it is exactly what `write_odf` writes for
      them. */
  function ParseOdf(t: string): Option<Descriptor>
  {
    match ParseFramed(t, OdfHead, OdfMiddle)
    case Some((name, tex)) =>
      if t == OdfText(Descriptor(name, tex)) then Some(Descriptor(name, tex)) else None
    case None => None
  }

  /** The parser accepts only descriptor texts: what it reads back is a
      descriptor with quote-free fields whose text is the input. */
  lemma ParseOdfSound(t: string)
    ensures ParseOdf(t).Some? ==>
      var d := ParseOdf(t).value;
      t == OdfText(d) && Free(d.name, '"') && Free(d.textureName, '"')
  {
    if ParseOdf(t).Some? {
      var r := t[|OdfHead|..];
      var r2 := r[QuoteFrom(r, 0) - QuoteFrom(OdfMiddle, 0) + |OdfMiddle|..];
      QuoteFromFirst(r, 0);
      QuoteFromFirst(r2, 0);
    }
  }

  /** In `f1 + middle + rest` with `f1` quote-free, the first quote is the
      first quote of `middle`. */
  lemma QuoteOfFramed(f1: string, middle: string, rest: string)
    requires QuoteFrom(middle, 0) < |middle| && Free(f1, '"')
    ensures QuoteFrom(f1 + (middle + rest), 0) == |f1| + QuoteFrom(middle, 0)
  {
    var r := f1 + (middle + rest);
    var p := QuoteFrom(middle, 0);
    QuoteFromFirst(middle, 0);
    forall j | 0 <= j < |f1| + p
      ensures r[j] != '"'
    {
      if j < |f1| {
        assert r[j] == f1[j];
      } else {
        assert r[j] == middle[j - |f1|];
      }
    }
    assert r[|f1| + p] == middle[p];
    QuoteAt(r, 0, |f1| + p);
  }

  lemma QuoteBeforeTail(f: string, tail: string)
    requires Free(f, '"') && |tail| > 0 && tail[0] == '"'
    ensures QuoteFrom(f + tail, 0) == |f|
  {
    var r := f + tail;
    forall j | 0 <= j < |f|
      ensures r[j] != '"'
    {
      assert r[j] == f[j];
    }
    QuoteAt(r, 0, |f|);
  }

  lemma ParseFields(head: string, f1: string, middle: string, f2: string, tail: string)
    requires QuoteFrom(middle, 0) <= |middle|
    requires QuoteFrom(f1 + (middle + (f2 + tail)), 0) == |f1| + QuoteFrom(middle, 0)
    requires QuoteFrom(f2 + tail, 0) == |f2|
    ensures ParseFramed(head + (f1 + (middle + (f2 + tail))), head, middle) == Some((f1, f2))
  {
    var r := f1 + (middle + (f2 + tail));
    var t := head + r;
    assert t[|head|..] == r;
    assert r[..|f1|] == f1;
    assert r[|f1| + |middle|..] == f2 + tail;
    assert (f2 + tail)[..|f2|] == f2;
  }

  /** Parsing a framed text gives back its two fields when neither holds a
      quote, `middle` holds one and `tail` opens with one. */
  lemma FramedRoundTrip(head: string, f1: string, middle: string, f2: string, tail: string)
    requires QuoteFrom(middle, 0) < |middle| && |tail| > 0 && tail[0] == '"'
    requires Free(f1, '"') && Free(f2, '"')
    ensures ParseFramed(head + (f1 + (middle + (f2 + tail))), head, middle) == Some((f1, f2))
  {
    QuoteOfFramed(f1, middle, f2 + tail);
    QuoteBeforeTail(f2, tail);
    ParseFields(head, f1, middle, f2, tail);
  }

  /** Reading a descriptor's text gives back the name and texture it was
      written with, whenever neither contains a double quote. */
  lemma OdfRoundTrip(d: Descriptor)
    requires Free(d.name, '"') && Free(d.textureName, '"')
    ensures ParseOdf(OdfText(d)) == Some(d)
  {
    assert OdfMiddle[0] == '.' && OdfMiddle[1] == 'l' && OdfMiddle[2] == '"' && OdfTail[0] == '"';
    QuoteAt(OdfMiddle, 0, 2);
    FramedRoundTrip(OdfHead, d.name, OdfMiddle, d.textureName, OdfTail);
  }

  // ---------------------------------------------------------------------
  // spritea.sta

  /** The whitespace-separated fields of a registry entry: the quoted name,
      the sheet, the six pixel numbers and the colour mask. */
  function EntryFields(l: StaLine): (r: seq<string>)
    requires l.Entry?
    ensures |r| == 9 && r[0] == "\"" + l.name + "\"" && r[1] == l.sheet && r[8] == l.colorMask
    ensures forall k :: 2 <= k < 8 ==> AllDigits(r[k])
  {
    ["\"" + l.name + "\"", l.sheet, NatToString(l.x), NatToString(l.y), NatToString(l.w),
     NatToString(l.h), NatToString(l.sheetW), NatToString(l.sheetH), l.colorMask]
  }

  /** One line of `spritea.sta`: a comment as it stands, an entry as its
      fields joined by single spaces. */
  function StaLineText(l: StaLine): (r: string)
    ensures l.Comment? ==> r == l.text
    ensures l.Entry? ==> |r| > 0 && r[0] == '"'
  {
    match l
    case Comment(text) => text
    case Entry(_, _, _, _, _, _, _, _, _) => Join(EntryFields(l), ' ')
  }

  /** The lines that read back unambiguously: a comment starts with `#` and
      stays on one line; an entry's text fields hold no space or newline. */
  predicate WellFormedLine(l: StaLine)
  {
    match l
    case Comment(text) => |text| > 0 && text[0] == '#' && Free(text, '\n')
    case Entry(name, sheet, _, _, _, _, _, _, mask) =>
      Free(name, ' ') && Free(name, '\n') && Free(sheet, ' ') && Free(sheet, '\n') &&
      Free(mask, ' ') && Free(mask, '\n')
  }

  /** Reads one line of `spritea.sta` back. */
  function ParseStaLine(s: string): Option<StaLine>
  {
    if |s| > 0 && s[0] == '#' then Some(Comment(s))
    else
      var f := Split(s, ' ');
      if |f| == 9 && |f[0]| >= 2 && f[0][0] == '"' && f[0][|f[0]| - 1] == '"' &&
         AllDigits(f[2]) && AllDigits(f[3]) && AllDigits(f[4]) && AllDigits(f[5]) &&
         AllDigits(f[6]) && AllDigits(f[7])
      then Some(Entry(f[0][1..|f[0]| - 1], f[1], ParseDigits(f[2]), ParseDigits(f[3]),
                      ParseDigits(f[4]), ParseDigits(f[5]), ParseDigits(f[6]), ParseDigits(f[7]), f[8]))
      else None
  }

  lemma DigitsFree(n: nat, c: char)
    requires !IsDigit(c)
    ensures Free(NatToString(n), c)
  {
  }

  lemma QuotedFree(name: string, c: char)
    requires Free(name, c) && c != '"'
    ensures Free("\"" + name + "\"", c)
  {
    var q := "\"" + name + "\"";
    forall k | 0 <= k < |q|
      ensures q[k] != c
    {
      if 0 < k < |q| - 1 {
        assert q[k] == name[k - 1];
      }
    }
  }

  /** Every field of a well-formed entry is free of `c`, for a space or a
      newline `c`. */
  lemma EntryFieldsFree(l: StaLine, c: char)
    requires l.Entry? && WellFormedLine(l) && (c == ' ' || c == '\n')
    ensures forall k :: 0 <= k < |EntryFields(l)| ==> Free(EntryFields(l)[k], c)
  {
    QuotedFree(l.name, c);
    DigitsFree(l.x, c);
    DigitsFree(l.y, c);
    DigitsFree(l.w, c);
    DigitsFree(l.h, c);
    DigitsFree(l.sheetW, c);
    DigitsFree(l.sheetH, c);
  }

  /** Reading a well-formed line's text gives the line back. */
  lemma StaLineRoundTrip(l: StaLine)
    requires WellFormedLine(l)
    ensures ParseStaLine(StaLineText(l)) == Some(l)
  {
    if l.Entry? {
      var fs := EntryFields(l);
      EntryFieldsFree(l, ' ');
      SplitJoin(fs, ' ');
      assert Split(StaLineText(l), ' ') == fs;
      var q := fs[0];
      assert q[1..|q| - 1] == l.name;
      ParseNatToString(l.x);
      ParseNatToString(l.y);
      ParseNatToString(l.w);
      ParseNatToString(l.h);
      ParseNatToString(l.sheetW);
      ParseNatToString(l.sheetH);
    }
  }

  /** A well-formed line's text holds no newline. */
  lemma StaLineOneLine(l: StaLine)
    requires WellFormedLine(l)
    ensures Free(StaLineText(l), '\n')
  {
    if l.Entry? {
      EntryFieldsFree(l, '\n');
      JoinFree(EntryFields(l), ' ', '\n');
    }
  }

  /** `"\n".join(sta_lines)`: the text of `spritea.sta`. */
  function RegistryText(lines: seq<StaLine>): (r: string)
    ensures |lines| > 0 ==> StaLineText(lines[0]) <= r
  {
    Join(MapSeq(StaLineText, lines), '\n')
  }

  /** Reads every line of a text back, failing if one does not parse. */
  function ParseLines(texts: seq<string>): Option<seq<StaLine>>
  {
    if texts == [] then Some([])
    else
      match (ParseLines(texts[..|texts| - 1]), ParseStaLine(texts[|texts| - 1]))
      case (Some(init), Some(l)) => Some(init + [l])
      case _ => None
  }

  function ParseRegistry(t: string): Option<seq<StaLine>>
  {
    ParseLines(Split(t, '\n'))
  }

  lemma {:induction false} ParseLinesOf(lines: seq<StaLine>)
    requires forall k :: 0 <= k < |lines| ==> WellFormedLine(lines[k])
    ensures ParseLines(MapSeq(StaLineText, lines)) == Some(lines)
  {
    if lines != [] {
      var init := lines[..|lines| - 1];
      ParseLinesOf(init);
      var texts := MapSeq(StaLineText, lines);
      assert texts[..|texts| - 1] == MapSeq(StaLineText, init);
      StaLineRoundTrip(lines[|lines| - 1]);
      assert init + [lines[|lines| - 1]] == lines;
    }
  }

  /** Reading the text of a registry gives its lines back, whenever every
      line is well formed. */
  lemma RegistryRoundTrip(lines: seq<StaLine>)
    requires |lines| >= 1
    requires forall k :: 0 <= k < |lines| ==> WellFormedLine(lines[k])
    ensures ParseRegistry(RegistryText(lines)) == Some(lines)
  {
    var texts := MapSeq(StaLineText, lines);
    forall k | 0 <= k < |texts|
      ensures Free(texts[k], '\n')
    {
      StaLineOneLine(lines[k]);
    }
    SplitJoin(texts, '\n');
    ParseLinesOf(lines);
  }
}
