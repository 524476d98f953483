/** The mark byte of an object (lgc.h): the macros on its bits do what the collector does with
    colours, and leave the other bits alone. */
module GcMarks {
  import opened GcHeap

  const WHITE0BIT: bv8 := 0x01
  const WHITE1BIT: bv8 := 0x02
  const WHITEBITS: bv8 := 0x03
  const BLACKBIT: bv8 := 0x04
  const FIXEDBIT: bv8 := 0x20
  const SFIXEDBIT: bv8 := 0x40
  /** maskmarks: everything but the colour. */
  const MASKMARKS: bv8 := 0xF8

  /** One colour at most: never both whites, never white and black. */
  predicate WellMarked(m: bv8) {
    m & WHITEBITS != WHITEBITS && (m & BLACKBIT != 0 ==> m & WHITEBITS == 0)
  }

  function ColorOf(m: bv8): Color {
    if m & WHITE0BIT != 0 then White0
    else if m & WHITE1BIT != 0 then White1
    else if m & BLACKBIT != 0 then Black
    else Gray
  }

  /** The field currentwhite has one white bit, and FIXEDBIT so that sweeping spares fixed objects. */
  predicate CurrentOk(g: bv8) {
    g == WHITE0BIT | FIXEDBIT || g == WHITE1BIT | FIXEDBIT
  }

  /** Which white is current. */
  function Current(g: bv8): bool {
    g & WHITE1BIT != 0
  }

  function MakeWhite(g: bv8, m: bv8): bv8 {
    (m & MASKMARKS) | (g & WHITEBITS)
  }

  function White2Gray(m: bv8): bv8 {
    m & !WHITEBITS
  }

  function Gray2Black(m: bv8): bv8 {
    m | BLACKBIT
  }

  function Black2Gray(m: bv8): bv8 {
    m & !BLACKBIT
  }

  function ChangeWhite(m: bv8): bv8 {
    m ^ WHITEBITS
  }

  function OtherWhite(g: bv8): bv8 {
    g ^ WHITEBITS
  }

  predicate DeadMark(g: bv8, m: bv8) {
    m & OtherWhite(g) & WHITEBITS != 0
  }

  /** The test of sweeplist, with deadmask = otherwhite(g). */
  predicate Survives(g: bv8, m: bv8) {
    (m ^ WHITEBITS) & OtherWhite(g) != 0
  }

  ghost predicate SameRest(m: bv8, m': bv8) {
    m' & MASKMARKS == m & MASKMARKS
  }

  lemma MarkMacros(g: bv8, m: bv8)
    requires CurrentOk(g) && WellMarked(m)
    ensures var m' := MakeWhite(g, m); WellMarked(m') && SameRest(m, m') && ColorOf(m') == White(Current(g))
    ensures var m' := White2Gray(m); IsWhite(ColorOf(m)) ==> WellMarked(m') && SameRest(m, m') && ColorOf(m') == Gray
    ensures var m' := Gray2Black(m); ColorOf(m) == Gray ==> WellMarked(m') && SameRest(m, m') && ColorOf(m') == Black
    ensures var m' := Black2Gray(m); ColorOf(m) == Black ==> WellMarked(m') && SameRest(m, m') && ColorOf(m') == Gray
  {
  }

  /** isdead, and what changewhite makes of a dead object. */
  lemma DeadMarks(g: bv8, m: bv8)
    requires CurrentOk(g) && WellMarked(m)
    ensures DeadMark(g, m) <==> IsDead(ColorOf(m), Current(g))
    ensures DeadMark(g, m) ==> WellMarked(ChangeWhite(m)) && SameRest(m, ChangeWhite(m))
                               && ColorOf(ChangeWhite(m)) == White(Current(g))
  {
    assert m & WHITEBITS == 0 || m & WHITEBITS == WHITE0BIT || m & WHITEBITS == WHITE1BIT;
  }

  /** The test of sweeplist keeps exactly the objects that are not dead and the fixed ones. */
  lemma SweepTest(g: bv8, m: bv8)
    requires CurrentOk(g) && WellMarked(m)
    ensures Survives(g, m) <==> !IsDead(ColorOf(m), Current(g)) || m & FIXEDBIT != 0
  {
  }

  /** The flip of atomic exchanges the whites and keeps FIXEDBIT. */
  lemma FlipMarks(g: bv8)
    requires CurrentOk(g)
    ensures CurrentOk(OtherWhite(g)) && Current(OtherWhite(g)) == !Current(g)
  {
  }

  /** luaC_freeall sets both whites and SFIXEDBIT: then a sweep spares only the main thread. */
  lemma FreeAllTest(m: bv8)
    ensures Survives(WHITEBITS | SFIXEDBIT, m) <==> m & SFIXEDBIT != 0
  {
  }

  // ---- The bytes of a heap, and what the collector model has instead ----

  type Marks = map<Id, bv8>

  ghost predicate AllMarked(m: Marks) {
    forall x | x in m :: WellMarked(m[x])
  }

  ghost function ColorsOf(m: Marks): Colors {
    map x | x in m :: ColorOf(m[x])
  }

  ghost function FixedOf(m: Marks): set<Id> {
    set x | x in m && m[x] & FIXEDBIT != 0
  }

  lemma SameFixed(m: bv8, m': bv8)
    requires SameRest(m, m')
    ensures m & FIXEDBIT != 0 <==> m' & FIXEDBIT != 0
  {
    assert m & FIXEDBIT == (m & MASKMARKS) & FIXEDBIT && m' & FIXEDBIT == (m' & MASKMARKS) & FIXEDBIT;
  }

  /** Writing a byte of the same rest recolours one object, and fixes or frees none. */
  lemma MarkWritten(m: Marks, x: Id, b: bv8)
    requires AllMarked(m) && x in m && WellMarked(b) && SameRest(m[x], b)
    ensures AllMarked(m[x := b]) && ColorsOf(m[x := b]) == ColorsOf(m)[x := ColorOf(b)]
            && FixedOf(m[x := b]) == FixedOf(m)
  {
    SameFixed(m[x], b);
  }

  lemma ColorHere(m: Marks, x: Id)
    requires x in m
    ensures x in ColorsOf(m) && ColorsOf(m)[x] == ColorOf(m[x])
  {
  }

  /** Every macro does to the bytes what the collector model does to the colours. */
  lemma MacrosCommute(g: bv8, m: Marks, x: Id)
    requires CurrentOk(g) && AllMarked(m) && x in m
    ensures var n := m[x := MakeWhite(g, m[x])];
            AllMarked(n) && ColorsOf(n) == ColorsOf(m)[x := White(Current(g))] && FixedOf(n) == FixedOf(m)
    ensures IsWhite(ColorsOf(m)[x]) ==>
              var n := m[x := White2Gray(m[x])];
              AllMarked(n) && ColorsOf(n) == ColorsOf(m)[x := Gray] && FixedOf(n) == FixedOf(m)
    ensures ColorsOf(m)[x] == Gray ==>
              var n := m[x := Gray2Black(m[x])];
              AllMarked(n) && ColorsOf(n) == ColorsOf(m)[x := Black] && FixedOf(n) == FixedOf(m)
    ensures ColorsOf(m)[x] == Black ==>
              var n := m[x := Black2Gray(m[x])];
              AllMarked(n) && ColorsOf(n) == ColorsOf(m)[x := Gray] && FixedOf(n) == FixedOf(m)
    ensures DeadMark(g, m[x]) ==>
              var n := m[x := ChangeWhite(m[x])];
              AllMarked(n) && ColorsOf(n) == ColorsOf(m)[x := White(Current(g))] && FixedOf(n) == FixedOf(m)
  {
    MarkMacros(g, m[x]);
    DeadMarks(g, m[x]);
    hide WellMarked, ColorOf, SameRest, MakeWhite, White2Gray, Gray2Black, Black2Gray, ChangeWhite, AllMarked,
         ColorsOf, FixedOf;
    assert ColorsOf(m)[x] == ColorOf(m[x]) by {
      ColorHere(m, x);
    }
    MarkWritten(m, x, MakeWhite(g, m[x]));
    if IsWhite(ColorOf(m[x])) { MarkWritten(m, x, White2Gray(m[x])); }
    if ColorOf(m[x]) == Gray { MarkWritten(m, x, Gray2Black(m[x])); }
    if ColorOf(m[x]) == Black { MarkWritten(m, x, Black2Gray(m[x])); }
    if DeadMark(g, m[x]) { MarkWritten(m, x, ChangeWhite(m[x])); }
  }

  /** The byte tests of the collector decide what its model decides on colours, before and after the flip. */
  lemma TestsCommute(g: bv8, m: Marks, x: Id)
    requires CurrentOk(g) && AllMarked(m) && x in m
    ensures DeadMark(g, m[x]) <==> IsDead(ColorsOf(m)[x], Current(g))
    ensures Survives(g, m[x]) <==> !IsDead(ColorsOf(m)[x], Current(g)) || x in FixedOf(m)
    ensures DeadMark(OtherWhite(g), m[x]) <==> IsDead(ColorsOf(m)[x], !Current(g))
  {
    DeadMarks(g, m[x]);
    SweepTest(g, m[x]);
    FlipMarks(g);
    DeadMarks(OtherWhite(g), m[x]);
  }
}
