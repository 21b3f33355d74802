/** The text-to-placement compiler of the Lua tab: a string becomes one
    `MakeExplosion` call per non-space character, centred on the anchor, with
    a per-identifier usage counter choosing the variant of each repeat. */
module Compiler {
  import opened Decimal
  import opened Glyphs
  import opened Sheet

  /** One placement: the glyph's base identifier, the variant chosen for this
      occurrence and the offset along the anchor's right vector. */
  datatype Placement = Placement(base: string, variant: nat, offset: real)
  {
    /** The asset the placement spawns. */
    function Name(): string
    {
      VariantName(base, variant)
    }
  }

  /** A line of the generated script: a fixed header line, or a
      `MakeExplosion(name, p + (r * right) + (u * up))` call. */
  datatype LuaLine = Line(text: string) | Explosion(name: string, right: real, up: real)

  /** The fixed offset of every placement along the anchor's up vector. */
  const UpOffset: real := 2.5

  /** The four header lines: a comment naming the text, then the anchor's
      position and its right and up vectors. */
  function ScriptHeader(text: string, handle: string): (r: seq<LuaLine>)
    ensures |r| == 4 && forall k :: 0 <= k < 4 ==> r[k].Line?
  {
    [Line("-- Generated for: " + text),
     Line("local p = GetPosition(" + handle + ")"),
     Line("local r = GetRight(" + handle + ")"),
     Line("local u = GetUp(" + handle + ")")]
  }

  /** The `MakeExplosion` call spawning a placement's asset. */
  function ExplosionOf(p: Placement): LuaLine
  {
    Explosion(p.Name(), p.offset, UpOffset)
  }

  /** The offset of the character at index `i` of a `len`-character text:
      the centring start `-((len - 1) * s / 2)` plus `i` steps of `s`. */
  function Offset(len: nat, s: real, i: nat): real
  {
    -(((len as real) - 1.0) * s / 2.0) + (i as real) * s
  }

  /** The usage counter after the first `k` characters: how many of them are
      non-space characters resolving to `b`. */
  function Uses(text: string, k: nat, b: string): nat
    requires k <= |text|
  {
    if k == 0 then 0
    else Uses(text, k - 1, b) + if text[k - 1] != ' ' && BaseOf(text[k - 1]) == b then 1 else 0
  }

  /** The placement made for the non-space character at index `i`. */
  function PlacementAt(text: string, s: real, i: nat): Placement
    requires i < |text|
  {
    var b := BaseOf(text[i]);
    Placement(b, Uses(text, i + 1, b), Offset(|text|, s, i))
  }

  /** The placements made for the first `k` characters. */
  function Placements(text: string, s: real, k: nat): seq<Placement>
    requires k <= |text|
  {
    if k == 0 then []
    else Placements(text, s, k - 1) + if text[k - 1] == ' ' then [] else [PlacementAt(text, s, k - 1)]
  }

  /** The placements made for a whole text. */
  function Compile(text: string, s: real): (r: seq<Placement>)
    ensures |r| <= |text|
  {
    PlacementsLength(text, s, |text|);
    Placements(text, s, |text|)
  }

  /** At most one placement per character read. */
  lemma {:induction false} PlacementsLength(text: string, s: real, k: nat)
    requires k <= |text|
    ensures |Placements(text, s, k)| <= k
  {
    if k > 0 {
      PlacementsLength(text, s, k - 1);
    }
  }

  /** The `usage` dictionary after the first `k` characters: every
      non-space character adds one to the entry of its identifier. */
  function UsageMap(text: string, k: nat): (r: map<string, nat>)
    requires k <= |text|
    ensures |r| <= k
  {
    if k == 0 then map[]
    else
      var m := UsageMap(text, k - 1);
      if text[k - 1] == ' ' then m
      else
        var b := BaseOf(text[k - 1]);
        m[b := (if b in m then m[b] else 0) + 1]
  }

  /** The dictionary holds the counters: an identifier's entry is its number
      of uses so far, and an identifier not yet used has no entry. */
  lemma {:induction false} UsageMapCounts(text: string, k: nat, b: string)
    requires k <= |text|
    ensures b in UsageMap(text, k) <==> Uses(text, k, b) > 0
    ensures b in UsageMap(text, k) ==> UsageMap(text, k)[b] == Uses(text, k, b)
  {
    if k > 0 {
      UsageMapCounts(text, k - 1, b);
    }
  }

  /** `generate_lua_block`: the script header, then one `MakeExplosion` per
      non-space character, in input order. */
  method GenerateLuaBlock(text: string, handle: string, s: real) returns (lua: seq<LuaLine>)
    ensures lua == ScriptHeader(text, handle) + MapSeq(ExplosionOf, Compile(text, s))
  {
    var usage: map<string, nat> := map[];
    lua := ScriptHeader(text, handle);
    ghost var header := lua;
    var startOffset := -(((|text| as real) - 1.0) * s / 2.0);
    for i := 0 to |text|
      invariant usage == UsageMap(text, i)
      invariant lua == header + MapSeq(ExplosionOf, Placements(text, s, i))
    {
      var c := text[i];
      if c == ' ' {
        SpaceStep(text, header, s, i, lua);
        continue;
      }
      var b := BaseOf(c);
      var off := startOffset + (i as real) * s;
      usage := usage[b := (if b in usage then usage[b] else 0) + 1];
      CharStep(text, header, s, i, lua, off);
      lua := lua + [Explosion(VariantName(b, usage[b]), off, UpOffset)];
    }
  }

  /** A space changes neither the dictionary nor the script. */
  lemma SpaceStep(text: string, header: seq<LuaLine>, s: real, i: nat, lua: seq<LuaLine>)
    requires i < |text| && text[i] == ' '
    requires lua == header + MapSeq(ExplosionOf, Placements(text, s, i))
    ensures UsageMap(text, i + 1) == UsageMap(text, i)
    ensures lua == header + MapSeq(ExplosionOf, Placements(text, s, i + 1))
  {
    assert Placements(text, s, i + 1) == Placements(text, s, i);
  }

  /** A non-space character appends the call for its placement, whose
      variant is the identifier's new dictionary entry. */
  lemma CharStep(text: string, header: seq<LuaLine>, s: real, i: nat, lua: seq<LuaLine>, off: real)
    requires i < |text| && text[i] != ' '
    requires lua == header + MapSeq(ExplosionOf, Placements(text, s, i))
    requires off == -(((|text| as real) - 1.0) * s / 2.0) + (i as real) * s
    ensures var b := BaseOf(text[i]);
      && b in UsageMap(text, i + 1)
      && lua + [Explosion(VariantName(b, UsageMap(text, i + 1)[b]), off, UpOffset)] ==
         header + MapSeq(ExplosionOf, Placements(text, s, i + 1))
  {
    var b := BaseOf(text[i]);
    UsageMapCounts(text, i + 1, b);
    CallStep(text, s, i, Uses(text, i + 1, b), off);
  }

  lemma CallStep(text: string, s: real, i: nat, uses: nat, off: real)
    requires i < |text| && text[i] != ' ' && uses == Uses(text, i + 1, BaseOf(text[i]))
    requires off == -(((|text| as real) - 1.0) * s / 2.0) + (i as real) * s
    ensures MapSeq(ExplosionOf, Placements(text, s, i + 1)) ==
      MapSeq(ExplosionOf, Placements(text, s, i)) + [Explosion(VariantName(BaseOf(text[i]), uses), off, UpOffset)]
  {
    var p := PlacementAt(text, s, i);
    assert p == Placement(BaseOf(text[i]), uses, off);
    MapSeqSnoc(ExplosionOf, Placements(text, s, i), p);
  }

  /** The indices of the non-space characters among the first `k`, in order. */
  function NonSpaceIndices(text: string, k: nat): seq<nat>
    requires k <= |text|
  {
    if k == 0 then []
    else NonSpaceIndices(text, k - 1) + if text[k - 1] == ' ' then [] else [k - 1]
  }

  /** The non-space indices are increasing, below `k`, never at a space, and
      every non-space index below `k` is one of them. */
  lemma {:induction false} NonSpaceIndicesFacts(text: string, k: nat)
    requires k <= |text|
    ensures var idx := NonSpaceIndices(text, k);
      (forall j :: 0 <= j < |idx| ==> idx[j] < k && text[idx[j]] != ' ') &&
      (forall j, j' :: 0 <= j < j' < |idx| ==> idx[j] < idx[j']) &&
      (forall i :: 0 <= i < k && text[i] != ' ' ==> i in idx)
  {
    if k > 0 {
      NonSpaceIndicesFacts(text, k - 1);
    }
  }

  /** The `j`-th placement is the one made for the `j`-th non-space character. */
  lemma {:induction false} PlacementsAt(text: string, s: real, k: nat)
    requires k <= |text|
    ensures |Placements(text, s, k)| == |NonSpaceIndices(text, k)|
    ensures forall j :: 0 <= j < |Placements(text, s, k)| ==>
      NonSpaceIndices(text, k)[j] < |text| &&
      Placements(text, s, k)[j] == PlacementAt(text, s, NonSpaceIndices(text, k)[j])
  {
    if k > 0 {
      PlacementsAt(text, s, k - 1);
    }
  }

  /** The compiler emits one placement per non-space character and none for
      a space, in input order: placement `j` is made for the character at
      `idx[j]`, where `idx` lists the non-space positions in increasing order. */
  lemma CompileFollowsText(text: string, s: real)
    ensures var ps, idx := Compile(text, s), NonSpaceIndices(text, |text|);
      |ps| == |idx| &&
      (forall j :: 0 <= j < |ps| ==>
        idx[j] < |text| && text[idx[j]] != ' ' && ps[j] == PlacementAt(text, s, idx[j])) &&
      (forall j, j' :: 0 <= j < j' < |ps| ==> idx[j] < idx[j']) &&
      (forall i :: 0 <= i < |text| && text[i] != ' ' ==> i in idx)
  {
    PlacementsAt(text, s, |text|);
    NonSpaceIndicesFacts(text, |text|);
  }

  /** How many placements of `ps` use base identifier `b`. */
  function CountBase(ps: seq<Placement>, b: string): nat
  {
    if ps == [] then 0 else CountBase(ps[..|ps| - 1], b) + if ps[|ps| - 1].base == b then 1 else 0
  }

  lemma {:induction false} UsesCountsPlacements(text: string, s: real, k: nat, b: string)
    requires k <= |text|
    ensures CountBase(Placements(text, s, k), b) == Uses(text, k, b)
  {
    if k > 0 {
      UsesCountsPlacements(text, s, k - 1, b);
      var prev := Placements(text, s, k - 1);
      if text[k - 1] != ' ' {
        var p := PlacementAt(text, s, k - 1);
        assert Placements(text, s, k) == prev + [p];
        assert p.base == BaseOf(text[k - 1]);
        CountBaseSnoc(prev, p, b);
        assert Uses(text, k, b) == Uses(text, k - 1, b) + if p.base == b then 1 else 0;
      } else {
        assert Placements(text, s, k) == prev;
      }
    }
  }

  lemma CountBaseSnoc(ps: seq<Placement>, p: Placement, b: string)
    ensures CountBase(ps + [p], b) == CountBase(ps, b) + if p.base == b then 1 else 0
  {
    var q := ps + [p];
    assert q[..|q| - 1] == ps;
  }

  /** The usage counter numbers the occurrences of each identifier: the
      placement at `j` is the `v`-th among the first `j + 1` to use its base
      identifier, and `v` is the variant it names. */
  lemma {:induction false} VariantIsOccurrence(text: string, s: real, k: nat, j: nat)
    requires k <= |text| && j < |Placements(text, s, k)|
    ensures Placements(text, s, k)[j].variant ==
      CountBase(Placements(text, s, k)[..j + 1], Placements(text, s, k)[j].base)
  {
    var ps, prev := Placements(text, s, k), Placements(text, s, k - 1);
    if j < |prev| {
      assert ps[..j + 1] == prev[..j + 1];
      VariantIsOccurrence(text, s, k - 1, j);
    } else {
      assert ps[..j + 1] == ps;
      UsesCountsPlacements(text, s, k, ps[j].base);
    }
  }

  lemma {:induction false} CountBaseMonotone(ps: seq<Placement>, m: nat, m': nat, b: string)
    requires m <= m' <= |ps|
    ensures CountBase(ps[..m], b) <= CountBase(ps[..m'], b)
    decreases m' - m
  {
    if m < m' {
      CountBaseMonotone(ps, m, m' - 1, b);
      assert ps[..m'][..m' - 1] == ps[..m' - 1];
    }
  }

  lemma {:induction false} PlacementBase(text: string, s: real, k: nat, j: nat)
    requires k <= |text| && j < |Placements(text, s, k)|
    ensures IsBase(Placements(text, s, k)[j].base)
  {
    if j < |Placements(text, s, k - 1)| {
      PlacementBase(text, s, k - 1, j);
    }
  }

  /** No two placements of one text spawn the same asset: equal identifiers
      get increasing variant indices. */
  lemma CompiledNamesDistinct(text: string, s: real, j: nat, j': nat)
    requires j < j' < |Compile(text, s)|
    ensures Compile(text, s)[j].Name() != Compile(text, s)[j'].Name()
  {
    var ps := Compile(text, s);
    PlacementBase(text, s, |text|, j);
    PlacementBase(text, s, |text|, j');
    if ps[j].base == ps[j'].base {
      VariantsIncrease(text, s, j, j');
    }
    VariantNameInjective(ps[j].base, ps[j].variant, ps[j'].base, ps[j'].variant);
  }

  /** A later placement with the same identifier has a larger variant. */
  lemma VariantsIncrease(text: string, s: real, j: nat, j': nat)
    requires j < j' < |Compile(text, s)|
    requires Compile(text, s)[j].base == Compile(text, s)[j'].base
    ensures Compile(text, s)[j].variant < Compile(text, s)[j'].variant
  {
    var ps := Compile(text, s);
    var b := ps[j'].base;
    VariantIsOccurrence(text, s, |text|, j);
    VariantIsOccurrence(text, s, |text|, j');
    CountBaseMonotone(ps, j + 1, j', b);
    assert ps[..j' + 1] == ps[..j'] + [ps[j']];
    CountBaseSnoc(ps[..j'], ps[j'], b);
  }

  /** The offsets at positions `i` and `len - 1 - i` are mirror images. */
  lemma OffsetsMirror(len: nat, s: real, i: nat)
    requires i < len
    ensures Offset(len, s, i) + Offset(len, s, len - 1 - i) == 0.0
  {
  }

  lemma {:induction false} NoSpaceIndices(text: string, k: nat)
    requires k <= |text|
    requires forall i :: 0 <= i < |text| ==> text[i] != ' '
    ensures |NonSpaceIndices(text, k)| == k
    ensures forall j :: 0 <= j < k ==> NonSpaceIndices(text, k)[j] == j
  {
    if k > 0 {
      NoSpaceIndices(text, k - 1);
    }
  }

  /** A text without spaces is laid out symmetrically about the anchor:
      the offsets of placements `j` and `len - 1 - j` sum to zero. */
  lemma CompileCentred(text: string, s: real, j: nat)
    requires forall i :: 0 <= i < |text| ==> text[i] != ' '
    requires j < |text|
    ensures |Compile(text, s)| == |text|
    ensures Compile(text, s)[j].offset + Compile(text, s)[|text| - 1 - j].offset == 0.0
  {
    NoSpacePlacement(text, s, j);
    NoSpacePlacement(text, s, |text| - 1 - j);
    OffsetsMirror(|text|, s, j);
  }

  /** Without spaces, placement `i` is made for character `i`. */
  lemma NoSpacePlacement(text: string, s: real, i: nat)
    requires forall i :: 0 <= i < |text| ==> text[i] != ' '
    requires i < |text|
    ensures |Compile(text, s)| == |text|
    ensures Compile(text, s)[i].offset == Offset(|text|, s, i)
  {
    NoSpaceIndices(text, |text|);
    PlacementsAt(text, s, |text|);
  }

  /** With a positive spacing the placements run left to right along the
      anchor's right vector, a space leaving its slot empty. */
  lemma CompileLeftToRight(text: string, s: real, j: nat, j': nat)
    requires s > 0.0 && j < j' < |Compile(text, s)|
    ensures Compile(text, s)[j].offset < Compile(text, s)[j'].offset
  {
    PlacementsAt(text, s, |text|);
    NonSpaceIndicesFacts(text, |text|);
    var idx := NonSpaceIndices(text, |text|);
    OffsetIncreasing(|text|, s, idx[j], idx[j']);
  }

  lemma OffsetIncreasing(len: nat, s: real, i: nat, i': nat)
    requires s > 0.0 && i < i'
    ensures Offset(len, s, i) < Offset(len, s, i')
  {
    var d := (i' - i) as real;
    assert d * s > 0.0;
    assert (i' as real) * s == (i as real) * s + d * s;
  }

  /** `"AB"` with spacing 2 gives `uiA1` at -1 and `uiB1` at +1. */
  lemma ExampleCentring()
    ensures Compile("AB", 2.0) == [Placement("uiA", 1, -1.0), Placement("uiB", 1, 1.0)]
  {
    assert BaseOf('A') == "uiA" && BaseOf('B') == "uiB";
  }

  /** `"A B"` with spacing 1 gives only two placements, at -1 and +1: the
      space holds the middle slot. */
  lemma ExampleSpaceSlot()
    ensures Compile("A B", 1.0) == [Placement("uiA", 1, -1.0), Placement("uiB", 1, 1.0)]
  {
    assert BaseOf('A') == "uiA" && BaseOf('B') == "uiB";
  }

  /** `"AAA"` spawns `uiA1`, `uiA2`, `uiA3` in that order. */
  lemma ExampleRepeats()
    ensures |Compile("AAA", 1.0)| == 3
    ensures Compile("AAA", 1.0)[0].Name() == "uiA1"
    ensures Compile("AAA", 1.0)[1].Name() == "uiA2"
    ensures Compile("AAA", 1.0)[2].Name() == "uiA3"
  {
    assert BaseOf('A') == "uiA";
    assert NatToString(1) == "1" && NatToString(2) == "2" && NatToString(3) == "3";
  }

  /** The variant of a placement lies between 1 and the number of uses of
      its identifier in the whole text. */
  lemma VariantBounds(text: string, s: real, j: nat)
    requires j < |Compile(text, s)|
    ensures 1 <= Compile(text, s)[j].variant <= Uses(text, |text|, Compile(text, s)[j].base)
  {
    var ps := Compile(text, s);
    var p := ps[j];
    VariantIsOccurrence(text, s, |text|, j);
    CountBaseMonotone(ps, j + 1, |ps|, p.base);
    assert ps[..|ps|] == ps;
    UsesCountsPlacements(text, s, |text|, p.base);
    assert ps[..j + 1][j] == p;
  }

  /** Every compiled identifier is the identifier of a glyph of the list. */
  lemma PlacementGlyph(text: string, s: real, j: nat) returns (k: nat)
    requires j < |Compile(text, s)|
    ensures k < |GlyphList()| && GlyphList()[k].base == Compile(text, s)[j].base
  {
    PlacementsAt(text, s, |text|);
    var c := text[NonSpaceIndices(text, |text|)[j]];
    ResolvedBaseIsGlyph(c);
    k :| 0 <= k < |GlyphList()| && GlyphList()[k].base == BaseOf(c);
  }

  /** When no identifier is used more than `N` times, every compiled
      placement names a line of the generated `spritea.sta`. */
  lemma CompiledNamesRegistered(text: string, s: real, n: int, j: nat)
    requires forall b :: Uses(text, |text|, b) <= VariantCount(n)
    requires j < |Compile(text, s)|
    ensures exists r ::
      && 2 <= r < |SheetRegistry(GlyphList(), n)|
      && SheetRegistry(GlyphList(), n)[r].Entry?
      && SheetRegistry(GlyphList(), n)[r].name == Compile(text, s)[j].Name()
  {
    var p := Compile(text, s)[j];
    VariantBounds(text, s, j);
    var k := PlacementGlyph(text, s, j);
    VariantRegistered(GlyphList(), n, k, p.variant);
  }

  /** Conversely, an identifier used more than `N` times makes some call name
      an asset that no line of the generated `spritea.sta` registers: its
      last use is its variant number `Uses(b)`, above `N`. */
  lemma OverusedNameUnregistered(text: string, s: real, n: int, b: string)
    requires Uses(text, |text|, b) > VariantCount(n)
    ensures exists j ::
      && 0 <= j < |Compile(text, s)|
      && Compile(text, s)[j].base == b
      && Compile(text, s)[j].variant == Uses(text, |text|, b)
      && forall r :: 0 <= r < |SheetRegistry(GlyphList(), n)| ==>
        !(SheetRegistry(GlyphList(), n)[r].Entry? &&
          SheetRegistry(GlyphList(), n)[r].name == Compile(text, s)[j].Name())
  {
    var ps := Compile(text, s);
    UsesCountsPlacements(text, s, |text|, b);
    var j := LastUse(ps, b);
    VariantIsOccurrence(text, s, |text|, j);
    PlacementBase(text, s, |text|, j);
    forall k | 0 <= k < |GlyphList()|
      ensures IsBase(GlyphList()[k].base)
    {
      GlyphListResolves(k);
    }
    RegistryLacks(GlyphList(), n, b, ps[j].variant);
  }

  /** The last placement with identifier `b` is the one at which the count
      of `b` reaches its total. */
  lemma {:induction false} LastUse(ps: seq<Placement>, b: string) returns (j: nat)
    requires CountBase(ps, b) > 0
    ensures j < |ps| && ps[j].base == b && CountBase(ps[..j + 1], b) == CountBase(ps, b)
  {
    var last := |ps| - 1;
    if ps[last].base == b {
      j := last;
      assert ps[..j + 1] == ps;
    } else {
      var prev := ps[..last];
      assert ps == prev + [ps[last]];
      CountBaseSnoc(prev, ps[last], b);
      j := LastUse(prev, b);
      assert prev[..j + 1] == ps[..j + 1];
    }
  }

  /** The usage counter is not clamped to the variant count: `N + 1` copies
      of `A` make the last placement name `uiA` + `(N + 1)`, which no
      registry line carries. */
  lemma RepeatsOverflowRegistry(n: int, s: real)
    ensures var text := seq(VariantCount(n) + 1, _ => 'A');
      var ps := Compile(text, s);
      |ps| == VariantCount(n) + 1 &&
      ps[VariantCount(n)].Name() == VariantName("uiA", VariantCount(n) + 1) &&
      forall r :: 0 <= r < |SheetRegistry(GlyphList(), n)| ==>
        !(SheetRegistry(GlyphList(), n)[r].Entry? &&
          SheetRegistry(GlyphList(), n)[r].name == ps[VariantCount(n)].Name())
  {
    var m := VariantCount(n) + 1;
    var text := seq(m, _ => 'A');
    assert BaseOf('A') == "uiA";
    NoSpaceIndices(text, m);
    PlacementsAt(text, s, m);
    RepeatedUses(text, m);
    forall k | 0 <= k < |GlyphList()|
      ensures IsBase(GlyphList()[k].base)
    {
      GlyphListResolves(k);
    }
    RegistryLacks(GlyphList(), n, "uiA", m);
  }

  lemma {:induction false} RepeatedUses(text: string, k: nat)
    requires k <= |text| && forall i :: 0 <= i < |text| ==> text[i] == 'A'
    ensures Uses(text, k, "uiA") == k
  {
    if k > 0 {
      RepeatedUses(text, k - 1);
      assert BaseOf(text[k - 1]) == "uiA";
    }
  }
}
