/**
 * The drawing rules of the structure viewer
 * (muki-cursor/src/components/StructureViewer.tsx): which names count as a
 * benzene ring, the box the drawing is fitted into, how many lines each
 * bond becomes and where they sit, how large each atom is drawn, and which
 * atoms and labels are shown. Pixel geometry, colours and fonts are not
 * modelled.
 */
module StructureViewer {
  import opened Wrappers
  import opened ChemTypes

  // ---------------------------------------------------------------------
  // The benzene-ring test (StructureViewer.tsx:19-29)
  // ---------------------------------------------------------------------

  /** sub occurs in s at some position (String.prototype.includes). */
  predicate Contains(s: string, sub: string)
    decreases |s|
  {
    |sub| <= |s| && (s[..|sub|] == sub || Contains(s[1..], sub))
  }

  /** A string contains what is contained in a string it contains. */
  lemma {:induction false} ContainsTransitive(s: string, m: string, sub: string)
    requires Contains(s, m) && Contains(m, sub)
    ensures Contains(s, sub)
    decreases |s|
  {
    if s[..|m|] == m {
      ContainsPrefix(m, s[|m|..], sub);
      assert s == m + s[|m|..];
    } else {
      ContainsTransitive(s[1..], m, sub);
    }
  }

  /** What a string contains, the string followed by more also contains. */
  lemma {:induction false} ContainsPrefix(s: string, rest: string, sub: string)
    requires Contains(s, sub)
    ensures Contains(s + rest, sub)
    decreases |s|
  {
    if s[..|sub|] != sub {
      ContainsPrefix(s[1..], rest, sub);
      assert (s + rest)[1..] == s[1..] + rest;
    } else {
      assert (s + rest)[..|sub|] == s[..|sub|];
    }
  }

  /** What a string contains, the string preceded by more also contains. */
  lemma {:induction false} ContainsSuffix(front: string, s: string, sub: string)
    requires Contains(s, sub)
    ensures Contains(front + s, sub)
    decreases |front|
  {
    if front != [] {
      ContainsSuffix(front[1..], s, sub);
      assert (front + s)[1..] == front[1..] + s;
    } else {
      assert front + s == s;
    }
  }

  /**
   * isBenzeneRing: a name is given, it is not empty (the empty string is
   * false in the source's condition), and it is ベンゼン or includes one of
   * the eight markers.
   */
  predicate IsBenzeneRing(compoundName: Option<string>) {
    && compoundName.Some?
    && compoundName.value != ""
    && var n := compoundName.value;
      || n == "ベンゼン"
      || Contains(n, "ベンゼン")
      || Contains(n, "トルエン")
      || Contains(n, "クロロベンゼン")
      || Contains(n, "ブロモベンゼン")
      || Contains(n, "フェノール")
      || Contains(n, "ベンズアルデヒド")
      || Contains(n, "安息香酸")
      || Contains(n, "アニリン")
  }

  /**
   * The test comes down to six markers: the equality and the two halogen
   * markers are covered by ベンゼン, which each of them contains.
   */
  lemma BenzeneMarkers(compoundName: Option<string>)
    ensures IsBenzeneRing(compoundName) <==>
      && compoundName.Some?
      && var n := compoundName.value;
        || Contains(n, "ベンゼン")
        || Contains(n, "トルエン")
        || Contains(n, "フェノール")
        || Contains(n, "ベンズアルデヒド")
        || Contains(n, "安息香酸")
        || Contains(n, "アニリン")
  {
    if compoundName.Some? {
      var n := compoundName.value;
      assert Contains("ベンゼン", "ベンゼン");
      ContainsSuffix("クロロ", "ベンゼン", "ベンゼン");
      assert "クロロ" + "ベンゼン" == "クロロベンゼン";
      ContainsSuffix("ブロモ", "ベンゼン", "ベンゼン");
      assert "ブロモ" + "ベンゼン" == "ブロモベンゼン";
      if Contains(n, "クロロベンゼン") {
        ContainsTransitive(n, "クロロベンゼン", "ベンゼン");
      }
      if Contains(n, "ブロモベンゼン") {
        ContainsTransitive(n, "ブロモベンゼン", "ベンゼン");
      }
    }
  }

  // ---------------------------------------------------------------------
  // The viewBox (StructureViewer.tsx:31-41)
  // ---------------------------------------------------------------------

  const PADDING: real := 80.0

  datatype ViewBox = ViewBox(x: real, y: real, width: real, height: real)

  function MinOf(xs: seq<real>): (m: real)
    requires |xs| > 0
    ensures m in xs && forall x :: x in xs ==> m <= x
  {
    if |xs| == 1 then xs[0]
    else
      var rest := MinOf(xs[1..]);
      assert forall x :: x in xs[1..] ==> x in xs;
      assert forall x :: x in xs ==> x == xs[0] || x in xs[1..];
      if xs[0] <= rest then xs[0] else rest
  }

  function MaxOf(xs: seq<real>): (m: real)
    requires |xs| > 0
    ensures m in xs && forall x :: x in xs ==> x <= m
  {
    if |xs| == 1 then xs[0]
    else
      var rest := MaxOf(xs[1..]);
      assert forall x :: x in xs[1..] ==> x in xs;
      assert forall x :: x in xs ==> x == xs[0] || x in xs[1..];
      if xs[0] >= rest then xs[0] else rest
  }

  function Xs(atoms: seq<Atom>): (r: seq<real>)
    ensures |r| == |atoms| && forall k :: 0 <= k < |atoms| ==> r[k] == atoms[k].x
  {
    seq(|atoms|, k requires 0 <= k < |atoms| => atoms[k].x)
  }

  function Ys(atoms: seq<Atom>): (r: seq<real>)
    ensures |r| == |atoms| && forall k :: 0 <= k < |atoms| ==> r[k] == atoms[k].y
  {
    seq(|atoms|, k requires 0 <= k < |atoms| => atoms[k].y)
  }

  /** Every atom lies between the smallest and the largest coordinate, and some atom attains each. */
  lemma Extremes(atoms: seq<Atom>)
    requires |atoms| > 0
    ensures forall a :: a in atoms ==>
      && MinOf(Xs(atoms)) <= a.x <= MaxOf(Xs(atoms))
      && MinOf(Ys(atoms)) <= a.y <= MaxOf(Ys(atoms))
    ensures exists k :: 0 <= k < |atoms| && atoms[k].x == MinOf(Xs(atoms))
    ensures exists k :: 0 <= k < |atoms| && atoms[k].x == MaxOf(Xs(atoms))
    ensures exists k :: 0 <= k < |atoms| && atoms[k].y == MinOf(Ys(atoms))
    ensures exists k :: 0 <= k < |atoms| && atoms[k].y == MaxOf(Ys(atoms))
  {
    var xs, ys := Xs(atoms), Ys(atoms);
    forall a | a in atoms
      ensures MinOf(xs) <= a.x <= MaxOf(xs) && MinOf(ys) <= a.y <= MaxOf(ys)
    {
      var k :| 0 <= k < |atoms| && atoms[k] == a;
      assert xs[k] in xs && ys[k] in ys;
    }
    var i1 :| 0 <= i1 < |xs| && xs[i1] == MinOf(xs);
    var i2 :| 0 <= i2 < |xs| && xs[i2] == MaxOf(xs);
    var i3 :| 0 <= i3 < |ys| && ys[i3] == MinOf(ys);
    var i4 :| 0 <= i4 < |ys| && ys[i4] == MaxOf(ys);
  }

  /**
   * The viewBox: the atoms' bounding box grown by PADDING on every side.
   * Without atoms the source computes it from infinite bounds; here there
   * is no box.
   */
  function BoxOf(atoms: seq<Atom>): (r: Option<ViewBox>)
    ensures r.None? <==> atoms == []
    ensures r.Some? ==>
      var b := r.value;
      && b.width == MaxOf(Xs(atoms)) - MinOf(Xs(atoms)) + 2.0 * PADDING
      && b.height == MaxOf(Ys(atoms)) - MinOf(Ys(atoms)) + 2.0 * PADDING
      && b.x == MinOf(Xs(atoms)) - PADDING && b.y == MinOf(Ys(atoms)) - PADDING
  {
    if atoms == [] then None
    else
      var minX, maxX := MinOf(Xs(atoms)), MaxOf(Xs(atoms));
      var minY, maxY := MinOf(Ys(atoms)), MaxOf(Ys(atoms));
      Some(ViewBox(minX - PADDING, minY - PADDING, maxX - minX + PADDING * 2.0, maxY - minY + PADDING * 2.0))
  }

  /**
   * The box holds every atom with PADDING to spare on each side, and is
   * tight: each of its four inner edges touches an atom.
   */
  lemma BoxFits(atoms: seq<Atom>)
    requires atoms != []
    ensures var b := BoxOf(atoms).value;
      && (forall a :: a in atoms ==>
            && b.x + PADDING <= a.x <= b.x + b.width - PADDING
            && b.y + PADDING <= a.y <= b.y + b.height - PADDING)
      && (exists k :: 0 <= k < |atoms| && atoms[k].x == b.x + PADDING)
      && (exists k :: 0 <= k < |atoms| && atoms[k].x == b.x + b.width - PADDING)
      && (exists k :: 0 <= k < |atoms| && atoms[k].y == b.y + PADDING)
      && (exists k :: 0 <= k < |atoms| && atoms[k].y == b.y + b.height - PADDING)
  {
    Extremes(atoms);
  }

  // ---------------------------------------------------------------------
  // Bonds (StructureViewer.tsx:42-71, 126-135)
  // ---------------------------------------------------------------------

  /** getBondStrokeWidth (StructureViewer.tsx:42-53). */
  function StrokeWidth(kind: BondType): int {
    match kind
    case Single => 4
    case Double => 4
    case Triple => 4
    case Other => 4
  }

  /** Every bond type is drawn with the same stroke width, 4. */
  lemma StrokeWidthUniform(a: BondType, b: BondType)
    ensures StrokeWidth(a) == StrokeWidth(b) == 4
  {
  }

  /** getBondOffset (StructureViewer.tsx:55-65): the sideways shift of line index of a bond. */
  function BondOffset(kind: BondType, index: nat): int {
    if kind == Double then (if index == 0 then -5 else 5)
    else if kind == Triple then (if index == 0 then -6 else if index == 1 then 0 else 6)
    else 0
  }

  /**
   * The number of lines a bond is drawn with (StructureViewer.tsx:126-135):
   * one to three for the known types, none for any other type.
   */
  function Order(kind: BondType): (n: nat)
    ensures n <= 3
    ensures n == 0 <==> kind == Other
  {
    match kind
    case Single => 1
    case Double => 2
    case Triple => 3
    case Other => 0
  }

  /** The offsets of the lines of one bond, in drawing order. */
  function Offsets(kind: BondType): (r: seq<int>)
    ensures |r| == Order(kind)
  {
    seq(Order(kind), i requires 0 <= i < Order(kind) => BondOffset(kind, i))
  }

  /**
   * The lines of a bond are spread symmetrically around the bond's axis,
   * in strictly increasing order: 0; -5, 5; -6, 0, 6; an unknown type has none.
   */
  lemma OffsetsSymmetric(kind: BondType)
    ensures var o := Offsets(kind);
      && (forall i :: 0 <= i < |o| ==> o[i] == -o[|o| - 1 - i])
      && (forall i, j :: 0 <= i < j < |o| ==> o[i] < o[j])
      && o == (match kind case Single => [0] case Double => [-5, 5] case Triple => [-6, 0, 6] case Other => [])
  {
    var o := Offsets(kind);
    match kind
    case Single =>
      assert o == [0];
    case Double =>
      assert o == [-5, 5];
    case Triple =>
      assert o == [-6, 0, 6];
    case Other =>
  }

  /** A drawn bond line, without its pixel geometry. */
  datatype Line = Line(from: Atom, to: Atom, offset: int, strokeWidth: int)

  /** structure.atoms.find: the first atom with the id. */
  function FindAtom(atoms: seq<Atom>, id: string): (r: Option<Atom>)
    ensures r.Some? <==> exists k :: 0 <= k < |atoms| && atoms[k].id == id
    ensures r.Some? ==> r.value.id == id && exists k :: (0 <= k < |atoms| && atoms[k] == r.value
      && forall j :: 0 <= j < k ==> atoms[j].id != id)
  {
    if atoms == [] then None
    else if atoms[0].id == id then Some(atoms[0])
    else
      var r := FindAtom(atoms[1..], id);
      assert forall k :: 0 < k < |atoms| ==> atoms[k] == atoms[1..][k - 1];
      r
  }

  /** Both ends of the bond name an atom of the structure. */
  predicate Resolves(atoms: seq<Atom>, b: Bond) {
    FindAtom(atoms, b.from).Some? && FindAtom(atoms, b.to).Some?
  }

  /** renderBond (StructureViewer.tsx:67-74): nothing when an end is missing. */
  function RenderBond(atoms: seq<Atom>, b: Bond, index: nat): (r: Option<Line>)
    ensures r.Some? <==> Resolves(atoms, b)
    ensures r.Some? ==>
      && r.value.from.id == b.from && r.value.to.id == b.to
      && r.value.offset == BondOffset(b.kind, index)
      && r.value.strokeWidth == 4
  {
    var from := FindAtom(atoms, b.from);
    var to := FindAtom(atoms, b.to);
    if from.None? || to.None? then None
    else Some(Line(from.value, to.value, BondOffset(b.kind, index), StrokeWidth(b.kind)))
  }

  /** The entries flatMap produces for one bond: one per line of its order. */
  function Expand(atoms: seq<Atom>, b: Bond): (r: seq<Option<Line>>)
    ensures |r| == Order(b.kind)
  {
    seq(Order(b.kind), i requires 0 <= i < Order(b.kind) => RenderBond(atoms, b, i))
  }

  function TotalOrder(bonds: seq<Bond>): nat {
    if bonds == [] then 0 else Order(bonds[0].kind) + TotalOrder(bonds[1..])
  }

  /** bondsToRender (StructureViewer.tsx:126-135). */
  function BondsToRender(atoms: seq<Atom>, bonds: seq<Bond>): (r: seq<Option<Line>>)
    ensures |r| == TotalOrder(bonds)
  {
    if bonds == [] then [] else Expand(atoms, bonds[0]) + BondsToRender(atoms, bonds[1..])
  }

  /**
   * Every entry is drawn exactly when every bond of a known type has both
   * ends among the atoms of the structure; a bond with a missing end leaves
   * holes (null entries), one per line of its order, and a bond of an
   * unknown type leaves no entry at all.
   */
  lemma {:induction false} AllDrawn(atoms: seq<Atom>, bonds: seq<Bond>)
    ensures (forall e :: e in BondsToRender(atoms, bonds) ==> e.Some?) <==>
      (forall b :: b in bonds && b.kind != Other ==> Resolves(atoms, b))
  {
    if bonds != [] {
      AllDrawn(atoms, bonds[1..]);
      var head := Expand(atoms, bonds[0]);
      var tail := BondsToRender(atoms, bonds[1..]);
      assert BondsToRender(atoms, bonds) == head + tail;
      assert forall b :: b in bonds <==> b == bonds[0] || b in bonds[1..];
      assert forall e :: e in head + tail <==> e in head || e in tail;
      if Resolves(atoms, bonds[0]) {
        assert forall e :: e in head ==> e.Some?;
      }
      if bonds[0].kind == Other {
        assert head == [];
      } else {
        assert head[0] == RenderBond(atoms, bonds[0], 0);
      }
    }
  }

  /** Every drawn line joins the ends its bond names, with an offset of that bond's type. */
  lemma {:induction false} DrawnLinesFollowBonds(atoms: seq<Atom>, bonds: seq<Bond>)
    ensures forall e :: e in BondsToRender(atoms, bonds) && e.Some? ==>
      exists b :: b in bonds && e.value.from.id == b.from && e.value.to.id == b.to && e.value.offset in Offsets(b.kind)
  {
    if bonds != [] {
      DrawnLinesFollowBonds(atoms, bonds[1..]);
      var head := Expand(atoms, bonds[0]);
      var tail := BondsToRender(atoms, bonds[1..]);
      assert BondsToRender(atoms, bonds) == head + tail;
      forall e | e in head && e.Some?
        ensures e.value.from.id == bonds[0].from && e.value.to.id == bonds[0].to && e.value.offset in Offsets(bonds[0].kind)
      {
        var i :| 0 <= i < |head| && head[i] == e;
        assert Offsets(bonds[0].kind)[i] == BondOffset(bonds[0].kind, i);
      }
      assert forall b :: b in bonds[1..] ==> b in bonds;
    }
  }

  // ---------------------------------------------------------------------
  // Atoms (StructureViewer.tsx:83-96, 140-163, 203)
  // ---------------------------------------------------------------------

  /** getAtomRadius (StructureViewer.tsx:83-96): the radius bond lines stop at. */
  function AtomRadius(element: string, ring: bool): int {
    if element == "C" then (if ring then 18 else 22)
    else if element == "O" then 20
    else if element == "N" then 20
    else if element == "Cl" then 24
    else if element == "Br" then 26
    else if element == "F" then 18
    else if element == "I" then 28
    else if element == "Na" then 24
    else 18
  }

  /** The radius of the drawn circle (StructureViewer.tsx:153-163). */
  function CircleRadius(element: string, ring: bool): int {
    match element
    case "C" => if ring then 18 else 22
    case "O" => 20
    case "N" => 20
    case "Cl" => 24
    case "Br" => 26
    case "F" => 18
    case "I" => 28
    case "Na" => 24
    case _ => 18
  }

  /**
   * Bond lines stop exactly at the drawn circle of every element; carbon
   * is drawn smaller in a benzene ring.
   */
  lemma RadiusAgrees(element: string, ring: bool)
    ensures AtomRadius(element, ring) == CircleRadius(element, ring)
    ensures 18 <= AtomRadius(element, ring) <= 28
    ensures element == "C" ==> AtomRadius(element, ring) == (if ring then 18 else 22)
  {
  }

  /** The atoms drawn (StructureViewer.tsx:140-147): hydrogen is hidden in a benzene ring. */
  function DrawnAtoms(atoms: seq<Atom>, ring: bool): (r: seq<Atom>)
    ensures |r| <= |atoms|
    ensures forall a :: a in r <==> a in atoms && !(ring && a.element == "H")
  {
    if atoms == [] then []
    else (if ring && atoms[0].element == "H" then [] else [atoms[0]]) + DrawnAtoms(atoms[1..], ring)
  }

  /** Outside a benzene ring every atom is drawn, in order. */
  lemma {:induction false} NoRingDrawsAll(atoms: seq<Atom>)
    ensures DrawnAtoms(atoms, false) == atoms
  {
    if atoms != [] {
      NoRingDrawsAll(atoms[1..]);
      assert atoms == [atoms[0]] + atoms[1..];
    }
  }

  /** Whether a drawn atom gets its element label (StructureViewer.tsx:203). */
  predicate HasLabel(a: Atom, ring: bool) {
    !(ring && a.element == "C") && !(ring && a.element == "H")
  }

  /**
   * Of the atoms drawn, exactly the carbons go unlabelled in a benzene
   * ring, and none outside one.
   */
  lemma LabelledAtoms(atoms: seq<Atom>, ring: bool)
    ensures forall a :: a in DrawnAtoms(atoms, ring) ==> (HasLabel(a, ring) <==> !ring || a.element != "C")
  {
  }
}
