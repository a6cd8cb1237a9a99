/**
 * `inject_helpers`: unless the source already defines `safeGetRange`, insert the block of helper
 * functions after the first run of `import` lines, or in front of the source when it has none.
 */
module PatchInject {
  import opened Wrappers
  import opened PatchRewrite

  /** `inject_helpers` leaves a source alone when it contains this text. */
  const Marker := "function safeGetRange("

  // ---------------------------------------------------------------------------------------------
  // The helper block
  //
  // The block is written down in the pieces between its two `sel.getRangeAt(0)` calls; long pieces
  // are cut into short literals so that facts about their characters stay cheap to check.

  const BannerStartPart1 := "\n"
  const BannerStartPart2 := "// === SAFE SELECTION HELPER"
  const BannerStartPart3 := "S (auto-"
  const BannerStart := BannerStartPart1 + (BannerStartPart2 + BannerStartPart3)
  const BannerEnd := "injected) ===\n"
  const HelperBodyPart1 := "function __fallbackRange(): "
  const HelperBodyPart2 := "Range {\n"
  const HelperBodyPart3 := "  const r = document.createR"
  const HelperBodyPart4 := "ange();\n"
  const HelperBodyGroup1 := HelperBodyPart1 + (HelperBodyPart2 + (HelperBodyPart3 + HelperBodyPart4))
  const HelperBodyPart5 := "  const root = (document.bod"
  const HelperBodyPart6 := "y || document.documentElemen"
  const HelperBodyPart7 := "t);\n"
  const HelperBodyPart8 := "  // \U{0435}\U{0441}\U{043B}\U{0438} \U{0432} \U{043A}\U{043E}\U{0440}\U{043D}\U{0435} \U{043D}\U{0435}\U{0442} \U{0442}\U{0435}\U{043A}\U{0441}\U{0442}\U{043E}"
  const HelperBodyGroup2 := HelperBodyPart5 + (HelperBodyPart6 + (HelperBodyPart7 + HelperBodyPart8))
  const HelperBodyPart9 := "\U{0432}\U{044B}\U{0445} \U{0443}\U{0437}\U{043B}\U{043E}\U{0432}, \U{0441}\U{0445}\U{043B}\U{043E}\U{043F}\U{044B}\U{0432}\U{0430}\U{0435}\U{043C} \U{0432} root"
  const HelperBodyPart10 := "\n"
  const HelperBodyPart11 := "  try { r.setStart(root, 0);"
  const HelperBodyPart12 := " } catch { }\n"
  const HelperBodyGroup3 := HelperBodyPart9 + (HelperBodyPart10 + (HelperBodyPart11 + HelperBodyPart12))
  const HelperBodyPart13 := "  try { r.collapse(true); } "
  const HelperBodyPart14 := "catch { }\n"
  const HelperBodyPart15 := "  return r;\n"
  const HelperBodyPart16 := "}\n"
  const HelperBodyGroup4 := HelperBodyPart13 + (HelperBodyPart14 + (HelperBodyPart15 + HelperBodyPart16))
  const HelperBodyPart17 := "): Range {\n"
  const HelperBodyPart18 := "  const sel = (typeof window"
  const HelperBodyPart19 := " !== 'undefined' && window.g"
  const HelperBodyGroup5 := Marker + (HelperBodyPart17 + (HelperBodyPart18 + HelperBodyPart19))
  const HelperBodyPart20 := "etSelection) ? window.getSel"
  const HelperBodyPart21 := "ection() : null;\n"
  const HelperBodyPart22 := "  if (!sel || sel.rangeCount"
  const HelperBodyPart23 := " === 0) return __fallbackRan"
  const HelperBodyGroup6 := HelperBodyPart20 + (HelperBodyPart21 + (HelperBodyPart22 + HelperBodyPart23))
  const HelperBodyPart24 := "ge();\n"
  const HelperBodyPart25 := "  try {"
  const HelperBodyGroup7 := HelperBodyPart24 + HelperBodyPart25
  const HelperBody := HelperBodyGroup1 + (HelperBodyGroup2 + (HelperBodyGroup3 + (HelperBodyGroup4 + (HelperBodyGroup5 + (HelperBodyGroup6 + HelperBodyGroup7)))))
  const ReturnWord := " return "
  const CallEnd := "; }"
  const CatchThenFromPart1 := " catch { return __fallbackRa"
  const CatchThenFromPart2 := "nge(); }\n"
  const CatchThenFromPart3 := "}\n"
  const CatchThenFromPart4 := "function safeGetRangeFrom(se"
  const CatchThenFromGroup1 := CatchThenFromPart1 + (CatchThenFromPart2 + (CatchThenFromPart3 + CatchThenFromPart4))
  const CatchThenFromPart5 := "l: Selection | null): Range "
  const CatchThenFromPart6 := "{\n"
  const CatchThenFromPart7 := "  if (!sel || sel.rangeCount"
  const CatchThenFromPart8 := " === 0) return __fallbackRan"
  const CatchThenFromGroup2 := CatchThenFromPart5 + (CatchThenFromPart6 + (CatchThenFromPart7 + CatchThenFromPart8))
  const CatchThenFromPart9 := "ge();\n"
  const CatchThenFromPart10 := "  try {"
  const CatchThenFromGroup3 := CatchThenFromPart9 + CatchThenFromPart10
  const CatchThenFrom := CatchThenFromGroup1 + (CatchThenFromGroup2 + CatchThenFromGroup3)
  const CatchEndPart1 := " catch { return __fallbackRa"
  const CatchEndPart2 := "nge(); }\n"
  const CatchEndPart3 := "}"
  const CatchEnd := CatchEndPart1 + (CatchEndPart2 + CatchEndPart3)
  const ClosingPart1 := "\n"
  const ClosingPart2 := "// === END SAFE SELECTION HE"
  const ClosingPart3 := "LPERS ===\n"
  const Closing := ClosingPart1 + (ClosingPart2 + ClosingPart3)

  lemma BannerStartLacks()
    ensures Lacks(BannerStart, '0')
    ensures Lacks(BannerStart, '*')
    ensures Lacks(BannerStart, ';')
  {
    assert Lacks(BannerStartPart1, '0');
    assert Lacks(BannerStartPart2, '0');
    assert Lacks(BannerStartPart3, '0');
    assert Lacks(BannerStartPart1, '*');
    assert Lacks(BannerStartPart2, '*');
    assert Lacks(BannerStartPart3, '*');
    assert Lacks(BannerStartPart1, ';');
    assert Lacks(BannerStartPart2, ';');
    assert Lacks(BannerStartPart3, ';');
    LacksConcat(BannerStartPart2, BannerStartPart3, '0');
    LacksConcat(BannerStartPart1, BannerStartPart2 + BannerStartPart3, '0');
    LacksConcat(BannerStartPart2, BannerStartPart3, '*');
    LacksConcat(BannerStartPart1, BannerStartPart2 + BannerStartPart3, '*');
    LacksConcat(BannerStartPart2, BannerStartPart3, ';');
    LacksConcat(BannerStartPart1, BannerStartPart2 + BannerStartPart3, ';');
  }

  lemma BannerEndLacks()
    ensures Lacks(BannerEnd, '0')
    ensures Lacks(BannerEnd, '*')
  {
  }

  lemma HelperBodyGroup1Lacks()
    ensures Lacks(HelperBodyGroup1, 'A')
    ensures Lacks(HelperBodyGroup1, '*')
  {
    assert Lacks(HelperBodyPart1, 'A');
    assert Lacks(HelperBodyPart2, 'A');
    assert Lacks(HelperBodyPart3, 'A');
    assert Lacks(HelperBodyPart4, 'A');
    assert Lacks(HelperBodyPart1, '*');
    assert Lacks(HelperBodyPart2, '*');
    assert Lacks(HelperBodyPart3, '*');
    assert Lacks(HelperBodyPart4, '*');
    LacksConcat(HelperBodyPart3, HelperBodyPart4, 'A');
    LacksConcat(HelperBodyPart2, HelperBodyPart3 + HelperBodyPart4, 'A');
    LacksConcat(HelperBodyPart1, HelperBodyPart2 + (HelperBodyPart3 + HelperBodyPart4), 'A');
    LacksConcat(HelperBodyPart3, HelperBodyPart4, '*');
    LacksConcat(HelperBodyPart2, HelperBodyPart3 + HelperBodyPart4, '*');
    LacksConcat(HelperBodyPart1, HelperBodyPart2 + (HelperBodyPart3 + HelperBodyPart4), '*');
  }

  lemma HelperBodyGroup2Lacks()
    ensures Lacks(HelperBodyGroup2, 'A')
    ensures Lacks(HelperBodyGroup2, '*')
  {
    assert Lacks(HelperBodyPart5, 'A');
    assert Lacks(HelperBodyPart6, 'A');
    assert Lacks(HelperBodyPart7, 'A');
    assert Lacks(HelperBodyPart8, 'A');
    assert Lacks(HelperBodyPart5, '*');
    assert Lacks(HelperBodyPart6, '*');
    assert Lacks(HelperBodyPart7, '*');
    assert Lacks(HelperBodyPart8, '*');
    LacksConcat(HelperBodyPart7, HelperBodyPart8, 'A');
    LacksConcat(HelperBodyPart6, HelperBodyPart7 + HelperBodyPart8, 'A');
    LacksConcat(HelperBodyPart5, HelperBodyPart6 + (HelperBodyPart7 + HelperBodyPart8), 'A');
    LacksConcat(HelperBodyPart7, HelperBodyPart8, '*');
    LacksConcat(HelperBodyPart6, HelperBodyPart7 + HelperBodyPart8, '*');
    LacksConcat(HelperBodyPart5, HelperBodyPart6 + (HelperBodyPart7 + HelperBodyPart8), '*');
  }

  lemma HelperBodyGroup3Lacks()
    ensures Lacks(HelperBodyGroup3, 'A')
    ensures Lacks(HelperBodyGroup3, '*')
  {
    assert Lacks(HelperBodyPart9, 'A');
    assert Lacks(HelperBodyPart10, 'A');
    assert Lacks(HelperBodyPart11, 'A');
    assert Lacks(HelperBodyPart12, 'A');
    assert Lacks(HelperBodyPart9, '*');
    assert Lacks(HelperBodyPart10, '*');
    assert Lacks(HelperBodyPart11, '*');
    assert Lacks(HelperBodyPart12, '*');
    LacksConcat(HelperBodyPart11, HelperBodyPart12, 'A');
    LacksConcat(HelperBodyPart10, HelperBodyPart11 + HelperBodyPart12, 'A');
    LacksConcat(HelperBodyPart9, HelperBodyPart10 + (HelperBodyPart11 + HelperBodyPart12), 'A');
    LacksConcat(HelperBodyPart11, HelperBodyPart12, '*');
    LacksConcat(HelperBodyPart10, HelperBodyPart11 + HelperBodyPart12, '*');
    LacksConcat(HelperBodyPart9, HelperBodyPart10 + (HelperBodyPart11 + HelperBodyPart12), '*');
  }

  lemma HelperBodyGroup4Lacks()
    ensures Lacks(HelperBodyGroup4, 'A')
    ensures Lacks(HelperBodyGroup4, '*')
  {
    assert Lacks(HelperBodyPart13, 'A');
    assert Lacks(HelperBodyPart14, 'A');
    assert Lacks(HelperBodyPart15, 'A');
    assert Lacks(HelperBodyPart16, 'A');
    assert Lacks(HelperBodyPart13, '*');
    assert Lacks(HelperBodyPart14, '*');
    assert Lacks(HelperBodyPart15, '*');
    assert Lacks(HelperBodyPart16, '*');
    LacksConcat(HelperBodyPart15, HelperBodyPart16, 'A');
    LacksConcat(HelperBodyPart14, HelperBodyPart15 + HelperBodyPart16, 'A');
    LacksConcat(HelperBodyPart13, HelperBodyPart14 + (HelperBodyPart15 + HelperBodyPart16), 'A');
    LacksConcat(HelperBodyPart15, HelperBodyPart16, '*');
    LacksConcat(HelperBodyPart14, HelperBodyPart15 + HelperBodyPart16, '*');
    LacksConcat(HelperBodyPart13, HelperBodyPart14 + (HelperBodyPart15 + HelperBodyPart16), '*');
  }

  lemma HelperBodyGroup5Lacks()
    ensures Lacks(HelperBodyGroup5, 'A')
    ensures Lacks(HelperBodyGroup5, '*')
  {
    assert Lacks(Marker, 'A');
    assert Lacks(HelperBodyPart17, 'A');
    assert Lacks(HelperBodyPart18, 'A');
    assert Lacks(HelperBodyPart19, 'A');
    assert Lacks(Marker, '*');
    assert Lacks(HelperBodyPart17, '*');
    assert Lacks(HelperBodyPart18, '*');
    assert Lacks(HelperBodyPart19, '*');
    LacksConcat(HelperBodyPart18, HelperBodyPart19, 'A');
    LacksConcat(HelperBodyPart17, HelperBodyPart18 + HelperBodyPart19, 'A');
    LacksConcat(Marker, HelperBodyPart17 + (HelperBodyPart18 + HelperBodyPart19), 'A');
    LacksConcat(HelperBodyPart18, HelperBodyPart19, '*');
    LacksConcat(HelperBodyPart17, HelperBodyPart18 + HelperBodyPart19, '*');
    LacksConcat(Marker, HelperBodyPart17 + (HelperBodyPart18 + HelperBodyPart19), '*');
  }

  lemma HelperBodyGroup6Lacks()
    ensures Lacks(HelperBodyGroup6, 'A')
    ensures Lacks(HelperBodyGroup6, '*')
  {
    assert Lacks(HelperBodyPart20, 'A');
    assert Lacks(HelperBodyPart21, 'A');
    assert Lacks(HelperBodyPart22, 'A');
    assert Lacks(HelperBodyPart23, 'A');
    assert Lacks(HelperBodyPart20, '*');
    assert Lacks(HelperBodyPart21, '*');
    assert Lacks(HelperBodyPart22, '*');
    assert Lacks(HelperBodyPart23, '*');
    LacksConcat(HelperBodyPart22, HelperBodyPart23, 'A');
    LacksConcat(HelperBodyPart21, HelperBodyPart22 + HelperBodyPart23, 'A');
    LacksConcat(HelperBodyPart20, HelperBodyPart21 + (HelperBodyPart22 + HelperBodyPart23), 'A');
    LacksConcat(HelperBodyPart22, HelperBodyPart23, '*');
    LacksConcat(HelperBodyPart21, HelperBodyPart22 + HelperBodyPart23, '*');
    LacksConcat(HelperBodyPart20, HelperBodyPart21 + (HelperBodyPart22 + HelperBodyPart23), '*');
  }

  lemma HelperBodyGroup7Lacks()
    ensures Lacks(HelperBodyGroup7, 'A')
    ensures Lacks(HelperBodyGroup7, '*')
  {
    assert Lacks(HelperBodyPart24, 'A');
    assert Lacks(HelperBodyPart25, 'A');
    assert Lacks(HelperBodyPart24, '*');
    assert Lacks(HelperBodyPart25, '*');
    LacksConcat(HelperBodyPart24, HelperBodyPart25, 'A');
    LacksConcat(HelperBodyPart24, HelperBodyPart25, '*');
  }

  lemma HelperBodyLacks()
    ensures Lacks(HelperBody, 'A')
    ensures Lacks(HelperBody, '*')
  {
    HelperBodyGroup1Lacks();
    HelperBodyGroup2Lacks();
    HelperBodyGroup3Lacks();
    HelperBodyGroup4Lacks();
    HelperBodyGroup5Lacks();
    HelperBodyGroup6Lacks();
    HelperBodyGroup7Lacks();
    LacksConcat(HelperBodyGroup6, HelperBodyGroup7, 'A');
    LacksConcat(HelperBodyGroup5, HelperBodyGroup6 + HelperBodyGroup7, 'A');
    LacksConcat(HelperBodyGroup4, HelperBodyGroup5 + (HelperBodyGroup6 + HelperBodyGroup7), 'A');
    LacksConcat(HelperBodyGroup3, HelperBodyGroup4 + (HelperBodyGroup5 + (HelperBodyGroup6 + HelperBodyGroup7)), 'A');
    LacksConcat(HelperBodyGroup2, HelperBodyGroup3 + (HelperBodyGroup4 + (HelperBodyGroup5 + (HelperBodyGroup6 + HelperBodyGroup7))), 'A');
    LacksConcat(HelperBodyGroup1, HelperBodyGroup2 + (HelperBodyGroup3 + (HelperBodyGroup4 + (HelperBodyGroup5 + (HelperBodyGroup6 + HelperBodyGroup7)))), 'A');
    LacksConcat(HelperBodyGroup6, HelperBodyGroup7, '*');
    LacksConcat(HelperBodyGroup5, HelperBodyGroup6 + HelperBodyGroup7, '*');
    LacksConcat(HelperBodyGroup4, HelperBodyGroup5 + (HelperBodyGroup6 + HelperBodyGroup7), '*');
    LacksConcat(HelperBodyGroup3, HelperBodyGroup4 + (HelperBodyGroup5 + (HelperBodyGroup6 + HelperBodyGroup7)), '*');
    LacksConcat(HelperBodyGroup2, HelperBodyGroup3 + (HelperBodyGroup4 + (HelperBodyGroup5 + (HelperBodyGroup6 + HelperBodyGroup7))), '*');
    LacksConcat(HelperBodyGroup1, HelperBodyGroup2 + (HelperBodyGroup3 + (HelperBodyGroup4 + (HelperBodyGroup5 + (HelperBodyGroup6 + HelperBodyGroup7)))), '*');
  }

  lemma ReturnWordLacks()
    ensures Lacks(ReturnWord, 'S')
    ensures Lacks(ReturnWord, '0')
    ensures Lacks(ReturnWord, 'c')
  {
  }

  lemma CallEndLacks()
    ensures Lacks(CallEnd, 'S')
    ensures Lacks(CallEnd, 'A')
    ensures Lacks(CallEnd, 'c')
  {
  }

  lemma CatchThenFromGroup1Lacks()
    ensures Lacks(CatchThenFromGroup1, 'A')
    ensures Lacks(CatchThenFromGroup1, '*')
  {
    assert Lacks(CatchThenFromPart1, 'A');
    assert Lacks(CatchThenFromPart2, 'A');
    assert Lacks(CatchThenFromPart3, 'A');
    assert Lacks(CatchThenFromPart4, 'A');
    assert Lacks(CatchThenFromPart1, '*');
    assert Lacks(CatchThenFromPart2, '*');
    assert Lacks(CatchThenFromPart3, '*');
    assert Lacks(CatchThenFromPart4, '*');
    LacksConcat(CatchThenFromPart3, CatchThenFromPart4, 'A');
    LacksConcat(CatchThenFromPart2, CatchThenFromPart3 + CatchThenFromPart4, 'A');
    LacksConcat(CatchThenFromPart1, CatchThenFromPart2 + (CatchThenFromPart3 + CatchThenFromPart4), 'A');
    LacksConcat(CatchThenFromPart3, CatchThenFromPart4, '*');
    LacksConcat(CatchThenFromPart2, CatchThenFromPart3 + CatchThenFromPart4, '*');
    LacksConcat(CatchThenFromPart1, CatchThenFromPart2 + (CatchThenFromPart3 + CatchThenFromPart4), '*');
  }

  lemma CatchThenFromGroup2Lacks()
    ensures Lacks(CatchThenFromGroup2, 'A')
    ensures Lacks(CatchThenFromGroup2, '*')
  {
    assert Lacks(CatchThenFromPart5, 'A');
    assert Lacks(CatchThenFromPart6, 'A');
    assert Lacks(CatchThenFromPart7, 'A');
    assert Lacks(CatchThenFromPart8, 'A');
    assert Lacks(CatchThenFromPart5, '*');
    assert Lacks(CatchThenFromPart6, '*');
    assert Lacks(CatchThenFromPart7, '*');
    assert Lacks(CatchThenFromPart8, '*');
    LacksConcat(CatchThenFromPart7, CatchThenFromPart8, 'A');
    LacksConcat(CatchThenFromPart6, CatchThenFromPart7 + CatchThenFromPart8, 'A');
    LacksConcat(CatchThenFromPart5, CatchThenFromPart6 + (CatchThenFromPart7 + CatchThenFromPart8), 'A');
    LacksConcat(CatchThenFromPart7, CatchThenFromPart8, '*');
    LacksConcat(CatchThenFromPart6, CatchThenFromPart7 + CatchThenFromPart8, '*');
    LacksConcat(CatchThenFromPart5, CatchThenFromPart6 + (CatchThenFromPart7 + CatchThenFromPart8), '*');
  }

  lemma CatchThenFromGroup3Lacks()
    ensures Lacks(CatchThenFromGroup3, 'A')
    ensures Lacks(CatchThenFromGroup3, '*')
  {
    assert Lacks(CatchThenFromPart9, 'A');
    assert Lacks(CatchThenFromPart10, 'A');
    assert Lacks(CatchThenFromPart9, '*');
    assert Lacks(CatchThenFromPart10, '*');
    LacksConcat(CatchThenFromPart9, CatchThenFromPart10, 'A');
    LacksConcat(CatchThenFromPart9, CatchThenFromPart10, '*');
  }

  lemma CatchThenFromLacks()
    ensures Lacks(CatchThenFrom, 'A')
    ensures Lacks(CatchThenFrom, '*')
  {
    CatchThenFromGroup1Lacks();
    CatchThenFromGroup2Lacks();
    CatchThenFromGroup3Lacks();
    LacksConcat(CatchThenFromGroup2, CatchThenFromGroup3, 'A');
    LacksConcat(CatchThenFromGroup1, CatchThenFromGroup2 + CatchThenFromGroup3, 'A');
    LacksConcat(CatchThenFromGroup2, CatchThenFromGroup3, '*');
    LacksConcat(CatchThenFromGroup1, CatchThenFromGroup2 + CatchThenFromGroup3, '*');
  }

  lemma CatchEndLacks()
    ensures Lacks(CatchEnd, 'A')
    ensures Lacks(CatchEnd, '*')
  {
    assert Lacks(CatchEndPart1, 'A');
    assert Lacks(CatchEndPart2, 'A');
    assert Lacks(CatchEndPart3, 'A');
    assert Lacks(CatchEndPart1, '*');
    assert Lacks(CatchEndPart2, '*');
    assert Lacks(CatchEndPart3, '*');
    LacksConcat(CatchEndPart2, CatchEndPart3, 'A');
    LacksConcat(CatchEndPart1, CatchEndPart2 + CatchEndPart3, 'A');
    LacksConcat(CatchEndPart2, CatchEndPart3, '*');
    LacksConcat(CatchEndPart1, CatchEndPart2 + CatchEndPart3, '*');
  }

  lemma ClosingLacks()
    ensures Lacks(Closing, '0')
    ensures Lacks(Closing, 'c')
  {
    assert Lacks(ClosingPart1, '0');
    assert Lacks(ClosingPart2, '0');
    assert Lacks(ClosingPart3, '0');
    assert Lacks(ClosingPart1, 'c');
    assert Lacks(ClosingPart2, 'c');
    assert Lacks(ClosingPart3, 'c');
    LacksConcat(ClosingPart2, ClosingPart3, '0');
    LacksConcat(ClosingPart1, ClosingPart2 + ClosingPart3, '0');
    LacksConcat(ClosingPart2, ClosingPart3, 'c');
    LacksConcat(ClosingPart1, ClosingPart2 + ClosingPart3, 'c');
  }

  /** The call both helpers make, and what rule 2 turns it into. */
  const SelCall := "sel" + RangeCall
  const SelCallRewritten := MarkedFromOpen + ("sel" + "))")

  lemma SelCallLacks()
    ensures Lacks(SelCall, 'S')
  {
    assert Lacks("sel", 'S') && Lacks(RangeCall, 'S');
    LacksConcat("sel", RangeCall, 'S');
  }

  lemma SelCallRewrittenLacks()
    ensures Lacks(SelCallRewritten, 'c')
  {
    assert Lacks(MarkedFromOpen, 'c') && Lacks("sel" + "))", 'c');
    LacksConcat(MarkedFromOpen, "sel" + "))", 'c');
  }

  /** The fixed pieces of the helper block, around its two calls. */
  datatype Layout = Layout(bannerStart: string, bannerEnd: string, body: string, returnWord: string,
                           callEnd: string, between: string, catchEnd: string, closing: string)

  const HelperLayout := Layout(BannerStart, BannerEnd, HelperBody, ReturnWord, CallEnd, CatchThenFrom, CatchEnd, Closing)

  /** The helper block laid out by `l` with `x` in place of both calls, followed by `b`. */
  function HelpersThen(l: Layout, x: string, b: string): string
  {
    l.bannerStart + (l.bannerEnd + (l.body + (l.returnWord + (x + (l.callEnd + (l.between
      + (l.returnWord + (x + (l.callEnd + (l.catchEnd + (l.closing + b)))))))))))
  }

  /** The helper block with `x` in place of both calls. */
  function HelpersWith(x: string): string
  {
    HelpersThen(HelperLayout, x, [])
  }

  /** The block `inject_helpers` inserts. */
  const Helpers := HelpersWith(SelCall)

  /** Text after the block is text appended to it. */
  lemma HelpersThenAppend(l: Layout, x: string, b: string)
    ensures HelpersThen(l, x, b) == HelpersThen(l, x, []) + b
  {
    var t11 := l.closing;
    var t10 := l.catchEnd + t11;
    var t9 := l.callEnd + t10;
    var t8 := x + t9;
    var t7 := l.returnWord + t8;
    var t6 := l.between + t7;
    var t5 := l.callEnd + t6;
    var t4 := x + t5;
    var t3 := l.returnWord + t4;
    var t2 := l.body + t3;
    var t1 := l.bannerEnd + t2;
    assert t11 + [] == t11;
    Assoc(l.catchEnd, t11, b);
    Assoc(l.callEnd, t10, b);
    Assoc(x, t9, b);
    Assoc(l.returnWord, t8, b);
    Assoc(l.between, t7, b);
    Assoc(l.callEnd, t6, b);
    Assoc(x, t5, b);
    Assoc(l.returnWord, t4, b);
    Assoc(l.body, t3, b);
    Assoc(l.bannerEnd, t2, b);
    Assoc(l.bannerStart, t1, b);
  }

  lemma ContainsFront(l: string, b: string)
    ensures Contains(l + b, l)
  {
    assert (l + b)[0..] == l + b;
    assert (l + b)[..|l|] == l;
  }

  lemma ContainsBefore(t: string, b: string, l: string)
    requires Contains(t, l)
    ensures Contains(t + b, l)
  {
    var k :| 0 <= k <= |t| && HasPrefix(t[k..], l);
    assert (t + b)[k..] == t[k..] + b;
    assert (t + b)[k..][..|l|] == t[k..][..|l|];
  }

  lemma ContainsAfter(a: string, t: string, l: string)
    requires Contains(t, l)
    ensures Contains(a + t, l)
  {
    var k :| 0 <= k <= |t| && HasPrefix(t[k..], l);
    assert (a + t)[|a| + k..] == t[k..];
  }

  /** The helper block defines `safeGetRange`, whatever stands in place of its calls. */
  lemma HelpersHaveMarker(x: string, b: string)
    ensures Contains(HelpersThen(HelperLayout, x, b), Marker)
  {
    var g5 := HelperBodyGroup5;
    ContainsFront(Marker, HelperBodyPart17 + (HelperBodyPart18 + HelperBodyPart19));
    ContainsBefore(g5, HelperBodyGroup6 + HelperBodyGroup7, Marker);
    ContainsAfter(HelperBodyGroup4, g5 + (HelperBodyGroup6 + HelperBodyGroup7), Marker);
    ContainsAfter(HelperBodyGroup3, HelperBodyGroup4 + (g5 + (HelperBodyGroup6 + HelperBodyGroup7)), Marker);
    ContainsAfter(HelperBodyGroup2, HelperBodyGroup3 + (HelperBodyGroup4 + (g5 + (HelperBodyGroup6 + HelperBodyGroup7))), Marker);
    ContainsAfter(HelperBodyGroup1, HelperBodyGroup2 + (HelperBodyGroup3 + (HelperBodyGroup4 + (g5 + (HelperBodyGroup6 + HelperBodyGroup7)))), Marker);
    assert Contains(HelperBody, Marker);
    var l := HelperLayout;
    var rest := l.returnWord + (x + (l.callEnd + (l.between
      + (l.returnWord + (x + (l.callEnd + (l.catchEnd + (l.closing + b))))))));
    ContainsBefore(HelperBody, rest, Marker);
    ContainsAfter(BannerEnd, HelperBody + rest, Marker);
    ContainsAfter(BannerStart, BannerEnd + (HelperBody + rest), Marker);
  }

  // ---------------------------------------------------------------------------------------------
  // Where the block goes: `re.search(r'(^import[^\n]*\n(?:import[^\n]*\n)*)', src, re.M)`

  /** Position `p` is where a line starts (`^` under `re.M`). */
  predicate LineStart(s: string, p: nat)
  {
    p == 0 || (p <= |s| && s[p - 1] == '\n')
  }

  /** The length of the first line of `t` with its line break, or None when `t` has no line break. */
  function LineLength(t: string): (r: Option<nat>)
    ensures r.Some? ==> 0 < r.value <= |t| && t[r.value - 1] == '\n' && Lacks(t[..r.value - 1], '\n')
    ensures r.None? ==> Lacks(t, '\n')
  {
    if |t| == 0 then None
    else if t[0] == '\n' then Some(1)
    else match LineLength(t[1..])
      case Some(n) => (assert t[..n] == [t[0]] + t[1..][..n - 1]; Some(n + 1))
      case None => None
  }

  /** `import[^\n]*\n` at the start of `t`: the length of the line it matches. */
  function ImportLine(t: string): (r: Option<nat>)
    ensures r.Some? <==> HasPrefix(t, "import") && !Lacks(t, '\n')
    ensures r.Some? ==> 6 < r.value <= |t| && t[r.value - 1] == '\n' && Lacks(t[..r.value - 1], '\n')
  {
    if HasPrefix(t, "import") then
      var n := LineLength(t);
      if n.Some? then
        assert t[..6] == "import";
        n
      else n
    else None
  }

  /** `(?:import[^\n]*\n)*` at the start of `t`: the length of the run of import lines it matches. */
  function ImportRun(t: string): (n: nat)
    ensures n <= |t|
    ensures n == 0 <==> ImportLine(t).None?
    ensures n > 0 ==> t[n - 1] == '\n'
    ensures ImportLine(t[n..]).None?
    decreases |t|
  {
    var h := ImportLine(t);
    if h.Some? then
      var m := ImportRun(t[h.value..]);
      assert t[h.value..][m..] == t[h.value + m..];
      if m > 0 then assert t[h.value..][m - 1] == t[h.value + m - 1]; h.value + m
      else h.value + m
    else 0
  }

  /** An import line starts at position `q` of `s`, which is a line start. */
  predicate ImportAt(s: string, q: nat)
    requires q <= |s|
  {
    LineStart(s, q) && ImportLine(s[q..]).Some?
  }

  /**
   * The leftmost match at a line start `p >= i`: its start and its end, after the longest run of
   * import lines there.
   */
  function FindImports(s: string, i: nat): (r: Option<(nat, nat)>)
    requires i <= |s|
    ensures r.Some? ==> i <= r.value.0 < r.value.1 <= |s| && ImportAt(s, r.value.0)
                        && r.value.1 == r.value.0 + ImportRun(s[r.value.0..])
    ensures r.Some? ==> forall q :: i <= q < r.value.0 ==> !ImportAt(s, q)
    ensures r.None? ==> forall q :: i <= q <= |s| ==> !ImportAt(s, q)
    decreases |s| - i
  {
    if ImportAt(s, i) then
      ImportRunBounds(s[i..]);
      Some((i, i + ImportRun(s[i..])))
    else if i == |s| then None
    else FindImports(s, i + 1)
  }

  /** `inject_helpers(src)`. */
  function Inject(s: string): (r: string)
    ensures Contains(s, Marker) ==> r == s
  {
    if Contains(s, Marker) then s else InsertBlock(s, Helpers)
  }

  /** The block `h` after the first run of import lines of `s`, or in front of `s`. */
  function InsertBlock(s: string, h: string): string
  {
    match FindImports(s, 0)
    case Some((_, e)) => s[..e] + h + s[e..]
    case None => h + s
  }

  /** Where `Inject` puts the block: after the first run of import lines, or at the very start. */
  function InsertionPoint(s: string): (e: nat)
    ensures e <= |s| && (e == 0 || s[e - 1] == '\n')
  {
    match FindImports(s, 0)
    case Some((p, e)) => RunEndsLine(s, p, e); e
    case None => 0
  }

  lemma ImportRunBounds(t: string)
    requires ImportLine(t).Some?
    ensures 0 < ImportRun(t) <= |t|
  {
  }

  /** A run of import lines ends with a line break. */
  lemma RunEndsLine(s: string, p: nat, e: nat)
    requires p < e <= |s| && ImportLine(s[p..]).Some? && e == p + ImportRun(s[p..])
    ensures s[e - 1] == '\n'
  {
    assert s[p..][e - p - 1] == s[e - 1];
  }

  /** The block goes at the insertion point and the source around it is kept. */
  lemma InsertBlockAt(s: string, h: string)
    ensures InsertBlock(s, h) == s[..InsertionPoint(s)] + (h + s[InsertionPoint(s)..])
  {
    var e := InsertionPoint(s);
    if FindImports(s, 0).None? {
      assert s[..e] == [] && s[e..] == s;
    }
  }

  /** What follows the helper block, appended to it. */
  lemma HelpersAppend(b: string)
    ensures Helpers + b == HelpersThen(HelperLayout, SelCall, b)
  {
    HelpersThenAppend(HelperLayout, SelCall, b);
  }

  /** A source without the marker gets the block at its insertion point. */
  lemma InjectAt(s: string)
    requires !Contains(s, Marker)
    ensures Inject(s) == s[..InsertionPoint(s)] + (Helpers + s[InsertionPoint(s)..])
  {
    InsertBlockAt(s, Helpers);
  }

  /** A source without the marker gets the block, unchanged, at its insertion point. */
  lemma InjectSplits(s: string)
    requires !Contains(s, Marker)
    ensures Inject(s) == s[..InsertionPoint(s)] + HelpersThen(HelperLayout, SelCall, s[InsertionPoint(s)..])
  {
    InjectAt(s);
    HelpersAppend(s[InsertionPoint(s)..]);
  }

  /** Inserting a block that contains `l` gives a text that contains `l`. */
  lemma InsertBlockContains(s: string, h: string, l: string)
    requires Contains(h, l)
    ensures Contains(InsertBlock(s, h), l)
  {
    var e := InsertionPoint(s);
    InsertBlockAt(s, h);
    ContainsBefore(h, s[e..], l);
    ContainsAfter(s[..e], h + s[e..], l);
  }

  /** After injection the source defines `safeGetRange`. */
  lemma InjectHasMarker(s: string)
    ensures Contains(Inject(s), Marker)
  {
    if !Contains(s, Marker) {
      HelpersHaveMarker(SelCall, []);
      InsertBlockContains(s, Helpers, Marker);
    }
  }

  /** Injecting twice is injecting once. */
  lemma InjectIdempotent(s: string)
    ensures Inject(Inject(s)) == Inject(s)
  {
    InjectHasMarker(s);
  }

}
