/**
 * What the patcher does to one file, and the run over the project: a file that mentions
 * `.getRangeAt(0)` gets the helper block and the four rewrites, and is written back when that
 * changed it.
 */
module PatchMain {
  import opened Wrappers
  import opened PatchRewrite
  import opened PatchInject

  // ---------------------------------------------------------------------------------------------
  // How each rule passes over the helper block

  /** `t` is nonempty and ends with `c`. */
  predicate LastIs(t: string, c: char)
  {
    |t| > 0 && t[|t| - 1] == c
  }

  lemma LastConcat(a: string, b: string, c: char)
    requires LastIs(b, c)
    ensures LastIs(a + b, c)
  {
    assert (a + b)[|a + b| - 1] == b[|b| - 1];
  }

  lemma Assoc3(a: string, b: string, c: string, d: string)
    ensures a + (b + (c + d)) == (a + (b + c)) + d
  {
  }

  /** The facts about the pieces of a block that let rule 1 copy it through. */
  predicate SelectionFit(l: Layout, x: string)
  {
    && Lacks(l.bannerStart + l.bannerEnd, '0') && LastIs(l.bannerEnd, '\n')
    && Lacks(l.body, 'A') && LastIs(l.body, '{')
    && Lacks(l.returnWord + (x + l.callEnd), 'S') && LastIs(l.callEnd, '}')
    && Lacks(l.between, 'A') && LastIs(l.between, '{')
    && Lacks(l.catchEnd, 'A') && LastIs(l.catchEnd, '}')
    && Lacks(l.closing, '0') && LastIs(l.closing, '\n')
  }

  /** The facts about the pieces of a block that let rule 2 rewrite exactly its two calls. */
  predicate VariableFit(l: Layout)
  {
    && Lacks(l.bannerStart + l.bannerEnd, '0') && LastIs(l.bannerEnd, '\n')
    && Lacks(l.body, 'A') && LastIs(l.body, '{')
    && Lacks(l.returnWord, '0') && LastIs(l.returnWord, ' ')
    && Lacks(l.callEnd + l.between, 'A') && LastIs(l.between, '{')
    && Lacks(l.callEnd + l.catchEnd, 'A') && LastIs(l.catchEnd, '}')
    && Lacks(l.closing, '0') && LastIs(l.closing, '\n')
  }

  /** The facts about the pieces of a block that let rules 3 and 4 copy it through. */
  predicate ConstFit(l: Layout, x: string)
  {
    && Lacks(l.bannerStart, '*') && Lacks(l.bannerStart, ';') && LastIs(l.bannerStart, '-')
    && Lacks(l.bannerEnd + l.body, '*') && LastIs(l.body, '{')
    && Lacks(l.returnWord + (x + l.callEnd), 'c') && LastIs(l.callEnd, '}')
    && Lacks(l.between, '*') && LastIs(l.between, '{')
    && Lacks(l.catchEnd, '*') && LastIs(l.catchEnd, '}')
    && Lacks(l.closing, 'c')
  }

  /** Rule 1 leaves a fitting block alone. */
  lemma SelectionStage(l: Layout, x: string, b: string)
    requires SelectionFit(l, x)
    ensures Sub(SelectionCall, HelpersThen(l, x, b)) == HelpersThen(l, x, Sub(SelectionCall, b))
  {
    var r := SelectionCall;
    SelectionCallNeeds();
    SelectionCallCut('\n');
    SelectionCallCut('{');
    SelectionCallCut('}');
    var call := l.returnWord + (x + l.callEnd);
    LastConcat(l.bannerStart, l.bannerEnd, '\n');
    LastConcat(x, l.callEnd, '}');
    LastConcat(l.returnWord, x + l.callEnd, '}');
    var u12 := l.closing + b;
    var u8 := l.between + (call + (l.catchEnd + u12));
    var u3 := l.body + (call + u8);
    CopyThen(r, '0', l.closing, b);
    CopyThen(r, 'A', l.catchEnd, u12);
    Assoc3(l.returnWord, x, l.callEnd, l.catchEnd + u12);
    CopyThen(r, 'S', call, l.catchEnd + u12);
    CopyThen(r, 'A', l.between, call + (l.catchEnd + u12));
    Assoc3(l.returnWord, x, l.callEnd, u8);
    CopyThen(r, 'S', call, u8);
    CopyThen(r, 'A', l.body, call + u8);
    Assoc(l.bannerStart, l.bannerEnd, u3);
    CopyThen(r, '0', l.bannerStart + l.bannerEnd, u3);
    var s12 := l.closing + Sub(r, b);
    var s8 := l.between + (call + (l.catchEnd + s12));
    Assoc3(l.returnWord, x, l.callEnd, l.catchEnd + s12);
    Assoc3(l.returnWord, x, l.callEnd, s8);
    Assoc(l.bannerStart, l.bannerEnd, l.body + (call + s8));
  }

  /** Rule 2 rewrites the two calls of a fitting block and nothing else in it. */
  lemma VariableStage(l: Layout, b: string)
    requires VariableFit(l)
    ensures Sub(VariableCall, HelpersThen(l, SelCall, b)) == HelpersThen(l, SelCallRewritten, Sub(VariableCall, b))
  {
    var r := VariableCall;
    VariableCallNeeds();
    VariableCallCut('\n');
    VariableCallCut('{');
    VariableCallCut('}');
    VariableCallCut(' ');
    assert IsIdentifier("sel");
    SubLacking(r, l.returnWord, '0');
    LastConcat(l.bannerStart, l.bannerEnd, '\n');
    LastConcat(l.callEnd, l.between, '{');
    LastConcat(l.callEnd, l.catchEnd, '}');
    var u12 := l.closing + b;
    var u10 := l.callEnd + (l.catchEnd + u12);
    var u6 := l.callEnd + (l.between + (l.returnWord + (SelCall + u10)));
    CopyThen(r, '0', l.closing, b);
    Assoc(l.callEnd, l.catchEnd, u12);
    CopyThen(r, 'A', l.callEnd + l.catchEnd, u12);
    VariableCallReplaced(l.returnWord, "sel", u10);
    Assoc(l.callEnd, l.between, l.returnWord + (SelCall + u10));
    CopyThen(r, 'A', l.callEnd + l.between, l.returnWord + (SelCall + u10));
    VariableCallReplaced(l.returnWord, "sel", u6);
    CopyThen(r, 'A', l.body, l.returnWord + (SelCall + u6));
    Assoc(l.bannerStart, l.bannerEnd, l.body + (l.returnWord + (SelCall + u6)));
    CopyThen(r, '0', l.bannerStart + l.bannerEnd, l.body + (l.returnWord + (SelCall + u6)));
    var s12 := l.closing + Sub(r, b);
    Assoc(l.callEnd, l.catchEnd, s12);
    var s10 := l.callEnd + (l.catchEnd + s12);
    var s6 := l.callEnd + (l.between + (l.returnWord + (SelCallRewritten + s10)));
    Assoc(l.callEnd, l.between, l.returnWord + (SelCallRewritten + s10));
    Assoc(l.bannerStart, l.bannerEnd, l.body + (l.returnWord + (SelCallRewritten + s6)));
  }

  /** Rules 3 and 4 leave a fitting block alone. */
  lemma ConstStage(r: Rule, l: Layout, x: string, b: string)
    requires ConstRuleShape(r) && Cut(r, '-') && Cut(r, '{') && Cut(r, '}')
    requires ConstFit(l, x)
    ensures Sub(r, HelpersThen(l, x, b)) == HelpersThen(l, x, Sub(r, b))
  {
    var call := l.returnWord + (x + l.callEnd);
    LastConcat(l.bannerEnd, l.body, '{');
    LastConcat(x, l.callEnd, '}');
    LastConcat(l.returnWord, x + l.callEnd, '}');
    var u12 := l.closing + b;
    var u8 := l.between + (call + (l.catchEnd + u12));
    var u4 := call + u8;
    SubSkipsLacking(r, 'c', l.closing, b);
    CopyThen(r, '*', l.catchEnd, u12);
    Assoc3(l.returnWord, x, l.callEnd, l.catchEnd + u12);
    CopyThen(r, 'c', call, l.catchEnd + u12);
    CopyThen(r, '*', l.between, call + (l.catchEnd + u12));
    Assoc3(l.returnWord, x, l.callEnd, u8);
    CopyThen(r, 'c', call, u8);
    Assoc(l.bannerEnd, l.body, u4);
    CopyThen(r, '*', l.bannerEnd + l.body, u4);
    CopyThen(r, '*', l.bannerStart, l.bannerEnd + (l.body + u4));
    var s12 := l.closing + Sub(r, b);
    var s8 := l.between + (call + (l.catchEnd + s12));
    Assoc3(l.returnWord, x, l.callEnd, l.catchEnd + s12);
    Assoc3(l.returnWord, x, l.callEnd, s8);
    Assoc(l.bannerEnd, l.body, call + s8);
  }

  /** Text that does not end in `;` is rewritten by rules 3 and 4 apart from what follows a cut after it. */
  lemma EndlessJoin(r: Rule, a: string, m: string, u: string)
    requires ConstRuleShape(r) && Cut(r, '-')
    requires Lacks(m, ';') && LastIs(m, '-')
    requires |a| > 0 && a[|a| - 1] != ';'
    ensures Sub(r, a + (m + u)) == Sub(r, a) + Sub(r, m + u)
  {
    assert Sub(r, a + m) == Sub(r, a) + Sub(r, m) by {
      SubConcatEndless(r, ';', a, m);
    }
    assert Sub(r, (a + m) + u) == Sub(r, a + m) + Sub(r, u) by {
      LastConcat(a, m, '-');
      SubConcat(r, a + m, u);
    }
    assert Sub(r, m + u) == Sub(r, m) + Sub(r, u) by {
      SubConcat(r, m, u);
    }
    Assoc(a, m, u);
    Assoc(Sub(r, a), Sub(r, m), Sub(r, u));
  }

  /** Text that does not end in `;` is rewritten by rules 3 and 4 apart from a block after it. */
  lemma ConstJoin(r: Rule, l: Layout, x: string, a: string, b: string)
    requires ConstRuleShape(r) && Cut(r, '-')
    requires Lacks(l.bannerStart, ';') && LastIs(l.bannerStart, '-')
    requires |a| > 0 && a[|a| - 1] != ';'
    ensures Sub(r, a + HelpersThen(l, x, b)) == Sub(r, a) + Sub(r, HelpersThen(l, x, b))
  {
    EndlessJoin(r, a, l.bannerStart, l.bannerEnd + (l.body + (l.returnWord + (x + (l.callEnd + (l.between
      + (l.returnWord + (x + (l.callEnd + (l.catchEnd + (l.closing + b)))))))))));
  }
  /** How the pieces of the helper block end. */
  lemma HelperPiecesEnd()
    ensures LastIs(BannerStart, '-') && LastIs(BannerEnd, '\n') && LastIs(HelperBody, '{')
    ensures LastIs(ReturnWord, ' ') && LastIs(CallEnd, '}') && LastIs(CatchThenFrom, '{')
    ensures LastIs(CatchEnd, '}') && LastIs(Closing, '\n')
  {
    assert LastIs(BannerStartPart3, '-');
    LastConcat(BannerStartPart2, BannerStartPart3, '-');
    LastConcat(BannerStartPart1, BannerStartPart2 + BannerStartPart3, '-');
    var g7 := HelperBodyGroup7;
    assert LastIs(HelperBodyPart25, '{');
    LastConcat(HelperBodyPart24, HelperBodyPart25, '{');
    LastConcat(HelperBodyGroup6, g7, '{');
    LastConcat(HelperBodyGroup5, HelperBodyGroup6 + g7, '{');
    LastConcat(HelperBodyGroup4, HelperBodyGroup5 + (HelperBodyGroup6 + g7), '{');
    LastConcat(HelperBodyGroup3, HelperBodyGroup4 + (HelperBodyGroup5 + (HelperBodyGroup6 + g7)), '{');
    LastConcat(HelperBodyGroup2, HelperBodyGroup3 + (HelperBodyGroup4 + (HelperBodyGroup5 + (HelperBodyGroup6 + g7))), '{');
    LastConcat(HelperBodyGroup1, HelperBodyGroup2 + (HelperBodyGroup3 + (HelperBodyGroup4 + (HelperBodyGroup5 + (HelperBodyGroup6 + g7)))), '{');
    assert LastIs(CatchThenFromPart10, '{');
    LastConcat(CatchThenFromPart9, CatchThenFromPart10, '{');
    LastConcat(CatchThenFromGroup2, CatchThenFromGroup3, '{');
    LastConcat(CatchThenFromGroup1, CatchThenFromGroup2 + CatchThenFromGroup3, '{');
    assert LastIs(CatchEndPart3, '}');
    LastConcat(CatchEndPart2, CatchEndPart3, '}');
    LastConcat(CatchEndPart1, CatchEndPart2 + CatchEndPart3, '}');
    assert LastIs(ClosingPart3, '\n');
    LastConcat(ClosingPart2, ClosingPart3, '\n');
    LastConcat(ClosingPart1, ClosingPart2 + ClosingPart3, '\n');
  }

  /** Rule 1 copies the helper block through. */
  lemma HelpersFitSelection()
    ensures SelectionFit(HelperLayout, SelCall)
  {
    HelperPiecesEnd();
    BannerStartLacks();
    BannerEndLacks();
    LacksConcat(BannerStart, BannerEnd, '0');
    HelperBodyLacks();
    ReturnWordLacks();
    SelCallLacks();
    CallEndLacks();
    LacksConcat(SelCall, CallEnd, 'S');
    LacksConcat(ReturnWord, SelCall + CallEnd, 'S');
    CatchThenFromLacks();
    CatchEndLacks();
    ClosingLacks();
  }

  /** Rule 2 rewrites the two calls of the helper block. */
  lemma HelpersFitVariable()
    ensures VariableFit(HelperLayout)
  {
    HelperPiecesEnd();
    BannerStartLacks();
    BannerEndLacks();
    LacksConcat(BannerStart, BannerEnd, '0');
    HelperBodyLacks();
    ReturnWordLacks();
    CallEndLacks();
    CatchThenFromLacks();
    CatchEndLacks();
    LacksConcat(CallEnd, CatchThenFrom, 'A');
    LacksConcat(CallEnd, CatchEnd, 'A');
    ClosingLacks();
  }

  /** Rules 3 and 4 copy the rewritten helper block through. */
  lemma HelpersFitConst()
    ensures ConstFit(HelperLayout, SelCallRewritten)
  {
    HelperPiecesEnd();
    BannerStartLacks();
    BannerEndLacks();
    HelperBodyLacks();
    LacksConcat(BannerEnd, HelperBody, '*');
    ReturnWordLacks();
    SelCallRewrittenLacks();
    CallEndLacks();
    LacksConcat(SelCallRewritten, CallEnd, 'c');
    LacksConcat(ReturnWord, SelCallRewritten + CallEnd, 'c');
    CatchThenFromLacks();
    CatchEndLacks();
    ClosingLacks();
  }
  /** Rule 1 over text ending in a line break followed by a fitting block. */
  lemma SelectionStageAfter(l: Layout, x: string, a: string, b: string)
    requires SelectionFit(l, x) && (a == [] || LastIs(a, '\n'))
    ensures Sub(SelectionCall, a + HelpersThen(l, x, b)) == Sub(SelectionCall, a) + HelpersThen(l, x, Sub(SelectionCall, b))
    ensures Sub(SelectionCall, a) == [] || LastIs(Sub(SelectionCall, a), '\n')
  {
    SelectionCallNeeds();
    SelectionStage(l, x, b);
    if a == [] {
      assert a + HelpersThen(l, x, b) == HelpersThen(l, x, b);
    } else {
      SelectionCallCut('\n');
      SubConcat(SelectionCall, a, HelpersThen(l, x, b));
      SubKeepsLastCut(SelectionCall, a);
    }
  }

  /** Rule 2 over text ending in a line break followed by a fitting block. */
  lemma VariableStageAfter(l: Layout, a: string, b: string)
    requires VariableFit(l) && (a == [] || LastIs(a, '\n'))
    ensures Sub(VariableCall, a + HelpersThen(l, SelCall, b))
         == Sub(VariableCall, a) + HelpersThen(l, SelCallRewritten, Sub(VariableCall, b))
    ensures Sub(VariableCall, a) == [] || LastIs(Sub(VariableCall, a), '\n')
  {
    VariableCallNeeds();
    VariableStage(l, b);
    if a == [] {
      assert a + HelpersThen(l, SelCall, b) == HelpersThen(l, SelCall, b);
    } else {
      VariableCallCut('\n');
      SubConcat(VariableCall, a, HelpersThen(l, SelCall, b));
      SubKeepsLastCut(VariableCall, a);
    }
  }

  /** Rule 3 or 4 over text ending in a line break followed by a fitting block. */
  lemma ConstStageAfter(r: Rule, l: Layout, x: string, a: string, b: string)
    requires ConstRuleShape(r) && Cut(r, '-') && Cut(r, '{') && Cut(r, '}')
    requires ConstFit(l, x) && (a == [] || LastIs(a, '\n'))
    ensures Sub(r, a + HelpersThen(l, x, b)) == Sub(r, a) + HelpersThen(l, x, Sub(r, b))
    ensures Sub(r, a) == [] || LastIs(Sub(r, a), '\n')
  {
    ConstStage(r, l, x, b);
    if a == [] {
      assert a + HelpersThen(l, x, b) == HelpersThen(l, x, b);
    } else {
      ConstJoin(r, l, x, a, b);
      SubKeepsLastEndless(r, ';', a, '-');
    }
  }

  /**
   * The four rewrites over text that ends in a line break and is followed by a fitting block:
   * the text around the block is rewritten as if the block were not there, and in the block
   * itself both calls become `/*SAFE*/(safeGetRangeFrom(sel))`.
   */
  lemma PatchAroundHelpers(l: Layout, a: string, b: string)
    requires SelectionFit(l, SelCall) && VariableFit(l) && ConstFit(l, SelCallRewritten)
    requires a == [] || LastIs(a, '\n')
    ensures PatchSrc(a + HelpersThen(l, SelCall, b)) == PatchSrc(a) + HelpersThen(l, SelCallRewritten, PatchSrc(b))
  {
    RulesWellFormed();
    ConstRangeShape();
    ConstRangeFromShape();
    ConstRuleCut('-');
    ConstRuleCut('{');
    ConstRuleCut('}');
    SelectionStageAfter(l, SelCall, a, b);
    var a1, b1 := Sub(SelectionCall, a), Sub(SelectionCall, b);
    VariableStageAfter(l, a1, b1);
    var a2, b2 := Sub(VariableCall, a1), Sub(VariableCall, b1);
    ConstStageAfter(ConstRange, l, SelCallRewritten, a2, b2);
    var a3, b3 := Sub(ConstRange, a2), Sub(ConstRange, b2);
    ConstStageAfter(ConstRangeFrom, l, SelCallRewritten, a3, b3);
  }

  /** The four rewrites over text ending in a line break followed by the helper block. */
  lemma HelpersPatched(a: string, b: string)
    requires a == [] || LastIs(a, '\n')
    ensures PatchSrc(a + HelpersThen(HelperLayout, SelCall, b))
         == PatchSrc(a) + HelpersThen(HelperLayout, SelCallRewritten, PatchSrc(b))
  {
    HelpersFitSelection();
    HelpersFitVariable();
    HelpersFitConst();
    PatchAroundHelpers(HelperLayout, a, b);
  }

  // ---------------------------------------------------------------------------------------------
  // One file

  lemma LineBefore(s: string, e: nat)
    requires e <= |s| && (e == 0 || s[e - 1] == '\n')
    ensures s[..e] == [] || LastIs(s[..e], '\n')
  {
  }

  /** Lines 65-66 as written: inject the helpers, then rewrite the result. */
  function PatchFileAsWritten(s: string): string
  {
    PatchSrc(Inject(s))
  }

  /**
   * As written, the rewrites reach into the injected block: both helpers' `sel.getRangeAt(0)`
   * become `/*SAFE*/(safeGetRangeFrom(sel))`, so `safeGetRangeFrom` calls itself.
   */
  lemma AsWrittenRewritesHelpers(s: string)
    requires !Contains(s, Marker)
    ensures PatchFileAsWritten(s)
         == PatchSrc(s[..InsertionPoint(s)]) + HelpersThen(HelperLayout, SelCallRewritten, PatchSrc(s[InsertionPoint(s)..]))
  {
    InjectSplits(s);
    HelpersPatchedAt(s);
  }

  /** `HelpersPatched` at the insertion point of `s`. */
  lemma HelpersPatchedAt(s: string)
    ensures PatchSrc(s[..InsertionPoint(s)] + HelpersThen(HelperLayout, SelCall, s[InsertionPoint(s)..]))
         == PatchSrc(s[..InsertionPoint(s)]) + HelpersThen(HelperLayout, SelCallRewritten, PatchSrc(s[InsertionPoint(s)..]))
  {
    LineBefore(s, InsertionPoint(s));
    HelpersPatched(s[..InsertionPoint(s)], s[InsertionPoint(s)..]);
  }

  /** The body of `safeGetRangeFrom` returning a call to `safeGetRangeFrom` itself. */
  const SelfCall := CatchThenFrom + (ReturnWord + SelCallRewritten)

  /** The rewritten helper block around any text contains the self-call. */
  lemma RewrittenHelpersCallThemselves(a: string, b: string)
    ensures Contains(a + HelpersThen(HelperLayout, SelCallRewritten, b), SelfCall)
  {
    var l := HelperLayout;
    var x := SelCallRewritten;
    var rest := l.callEnd + (l.catchEnd + (l.closing + b));
    var t := l.between + (l.returnWord + (x + rest));
    assert t == SelfCall + rest by {
      Assoc(l.returnWord, x, rest);
      Assoc(l.between, l.returnWord + x, rest);
    }
    ContainsFront(SelfCall, rest);
    var t5 := l.callEnd + t;
    ContainsAfter(l.callEnd, t, SelfCall);
    ContainsAfter(x, t5, SelfCall);
    ContainsAfter(l.returnWord, x + t5, SelfCall);
    ContainsAfter(l.body, l.returnWord + (x + t5), SelfCall);
    ContainsAfter(l.bannerEnd, l.body + (l.returnWord + (x + t5)), SelfCall);
    ContainsAfter(l.bannerStart, l.bannerEnd + (l.body + (l.returnWord + (x + t5))), SelfCall);
    ContainsAfter(a, HelpersThen(l, x, b), SelfCall);
  }

  /** Every file the patcher gives the helpers to comes out with `safeGetRangeFrom` calling itself. */
  lemma AsWrittenSelfCall(s: string)
    requires !Contains(s, Marker)
    ensures Contains(PatchFileAsWritten(s), SelfCall)
  {
    AsWrittenRewritesHelpers(s);
    RewrittenHelpersCallThemselves(PatchSrc(s[..InsertionPoint(s)]), PatchSrc(s[InsertionPoint(s)..]));
  }

  /** One file with the steps in the intended order: rewrite the source, then inject the helpers. */
  function PatchFile(s: string): string
  {
    Inject(PatchSrc(s))
  }

  /**
   * The intended result: the rewritten source with the helper block inserted verbatim, so both
   * helpers read the range with `sel.getRangeAt(0)`.
   */
  lemma PatchFileKeepsHelpers(s: string)
    requires !Contains(PatchSrc(s), Marker)
    ensures var t := PatchSrc(s);
      PatchFile(s) == t[..InsertionPoint(t)] + HelpersThen(HelperLayout, SelCall, t[InsertionPoint(t)..])
  {
    InjectSplits(PatchSrc(s));
  }

  /** A source that already defines `safeGetRange` is only rewritten. */
  lemma PatchFileMarked(s: string)
    requires Contains(PatchSrc(s), Marker)
    ensures PatchFile(s) == PatchSrc(s)
  {
  }

  /** After patching, the file defines `safeGetRange`. */
  lemma PatchFileHasMarker(s: string)
    ensures Contains(PatchFile(s), Marker)
  {
    InjectHasMarker(PatchSrc(s));
  }
  // ---------------------------------------------------------------------------------------------
  // Which files the patcher visits

  const Extensions: seq<string> := [".ts", ".tsx", ".js", ".jsx"]
  const ExcludedSegments: seq<string> := ["/node_modules/", "/.next/", "/dist/", "/out/"]

  /** `t.endswith(e)`. */
  predicate EndsWithText(t: string, e: string)
  {
    |e| <= |t| && t[|t| - |e|..] == e
  }

  /** `os.path.join(base, name)` for a POSIX path. */
  function JoinPath(base: string, name: string): (p: string)
    ensures |name| > 0 && name[0] != '/' ==> EndsWithText(p, name) && |p| >= |base| + |name|
  {
    if |name| > 0 && name[0] == '/' then name
    else if |base| == 0 || base[|base| - 1] == '/' then base + name
    else base + "/" + name
  }

  /** The test on lines 8 and 11: a source extension, and no excluded directory on the path. */
  predicate IsCandidate(base: string, name: string)
  {
    (exists k :: 0 <= k < |Extensions| && EndsWithText(name, Extensions[k]))
    && !(exists k :: 0 <= k < |ExcludedSegments| && Contains(JoinPath(base, name), ExcludedSegments[k]))
  }

  /** The paths lines 5-13 collect from a walk that lists `(directory, file name)` pairs in order. */
  function Candidates(listing: seq<(string, string)>): seq<string>
  {
    if |listing| == 0 then []
    else
      var last := listing[|listing| - 1];
      Candidates(listing[..|listing| - 1]) + (if IsCandidate(last.0, last.1) then [JoinPath(last.0, last.1)] else [])
  }

  /** Lines 5-13. */
  method CollectFiles(listing: seq<(string, string)>) returns (files: seq<string>)
    ensures files == Candidates(listing)
  {
    files := [];
    var i := 0;
    while i < |listing|
      invariant 0 <= i <= |listing|
      invariant files == Candidates(listing[..i])
    {
      var (base, name) := listing[i];
      assert listing[..i + 1][..i] == listing[..i];
      if IsCandidate(base, name) {
        files := files + [JoinPath(base, name)];
      }
      i := i + 1;
    }
    assert listing[..i] == listing;
  }

  /** A path is collected exactly when some listed file passes the test and joins to it. */
  lemma {:induction false} CandidatesExactly(listing: seq<(string, string)>, p: string)
    ensures p in Candidates(listing)
        <==> exists i :: 0 <= i < |listing| && IsCandidate(listing[i].0, listing[i].1) && p == JoinPath(listing[i].0, listing[i].1)
  {
    if |listing| > 0 {
      var init := listing[..|listing| - 1];
      CandidatesExactly(init, p);
      forall i | 0 <= i < |init| ensures init[i] == listing[i] { }
    }
  }

  // ---------------------------------------------------------------------------------------------
  // The run over the collected files

  // The loop is stated for any per-file transform `patch`; the patcher's is `PatchFileAsWritten`,
  // and `PatchFile` gives the run with the steps in the intended order.

  /** What lines 61-70 leave in a file with contents `s`. */
  function Outcome(s: string, patch: string -> string): string
  {
    if Contains(s, RangeCall) then patch(s) else s
  }

  /** Whether lines 63-67 write the file back. */
  predicate Rewritten(s: string, patch: string -> string)
  {
    Contains(s, RangeCall) && patch(s) != s
  }

  /** One pass of the loop on lines 60-70 over `p`: the files and the list of patched paths after it. */
  function Step(fs: map<string, string>, patched: seq<string>, p: string, patch: string -> string): (r: (map<string, string>, seq<string>))
    requires p in fs
    ensures r.0.Keys == fs.Keys && r.0 == fs[p := Outcome(fs[p], patch)]
    ensures r.1 == patched + (if Rewritten(fs[p], patch) then [p] else [])
  {
    var s := fs[p];
    if !Contains(s, RangeCall) then (fs, patched)
    else
      var s2 := patch(s);
      if s2 != s then (fs[p := s2], patched + [p]) else (assert fs[p := s2] == fs; (fs, patched))
  }

  /** The loop on lines 60-70 over `paths`. */
  function RunAll(fs: map<string, string>, paths: seq<string>, patch: string -> string): (r: (map<string, string>, seq<string>))
    requires forall i :: 0 <= i < |paths| ==> paths[i] in fs
    ensures r.0.Keys == fs.Keys
  {
    if |paths| == 0 then (fs, [])
    else
      var prev := RunAll(fs, paths[..|paths| - 1], patch);
      Step(prev.0, prev.1, paths[|paths| - 1], patch)
  }

  /** The run over the first `i + 1` paths is one more step after the run over the first `i`. */
  lemma RunAllSnoc(fs: map<string, string>, paths: seq<string>, i: nat, patch: string -> string)
    requires forall j :: 0 <= j < |paths| ==> paths[j] in fs
    requires i < |paths|
    ensures paths[i] in RunAll(fs, paths[..i], patch).0
    ensures RunAll(fs, paths[..i + 1], patch)
         == Step(RunAll(fs, paths[..i], patch).0, RunAll(fs, paths[..i], patch).1, paths[i], patch)
  {
    assert paths[..i + 1][..i] == paths[..i];
  }

  /** The files of the project, by path. */
  class Workspace {
    var files: map<string, string>

    constructor (files0: map<string, string>)
      ensures files == files0
    {
      files := files0;
    }

    /**
     * Lines 59-70: patch every listed file (inject, then rewrite, as written), write back those
     * that changed, and list them.
     */
    method PatchAll(paths: seq<string>) returns (patched: seq<string>)
      requires forall i :: 0 <= i < |paths| ==> paths[i] in files
      modifies this
      ensures (files, patched) == RunAll(old(files), paths, PatchFileAsWritten)
    {
      patched := [];
      var i := 0;
      while i < |paths|
        invariant 0 <= i <= |paths|
        invariant forall j :: 0 <= j < |paths| ==> paths[j] in old(files)
        invariant (files, patched) == RunAll(old(files), paths[..i], PatchFileAsWritten)
      {
        RunAllSnoc(old(files), paths, i, PatchFileAsWritten);
        var p := paths[i];
        var s := files[p];
        if Contains(s, RangeCall) {
          var s2 := PatchFileAsWritten(s);
          if s2 != s {
            files := files[p := s2];
            patched := patched + [p];
          }
        }
        i := i + 1;
      }
      assert paths[..i] == paths;
    }
  }

  /** A file the run does not visit keeps its contents. */
  lemma {:induction false} RunLeavesOthers(fs: map<string, string>, paths: seq<string>, p: string, patch: string -> string)
    requires forall i :: 0 <= i < |paths| ==> paths[i] in fs
    requires p in fs && p !in paths
    ensures RunAll(fs, paths, patch).0[p] == fs[p]
  {
    if |paths| > 0 {
      var init := paths[..|paths| - 1];
      RunLeavesOthers(fs, init, p, patch);
    }
  }

  /** No path is listed twice. */
  predicate Distinct(paths: seq<string>)
  {
    forall i, j :: 0 <= i < j < |paths| ==> paths[i] != paths[j]
  }

  /**
   * When every path is visited once, each visited file ends with its outcome, and the list names
   * exactly the files that were written back.
   */
  lemma {:induction false} RunOutcome(fs: map<string, string>, paths: seq<string>, p: string, patch: string -> string)
    requires forall i :: 0 <= i < |paths| ==> paths[i] in fs
    requires Distinct(paths) && p in paths
    ensures RunAll(fs, paths, patch).0[p] == Outcome(fs[p], patch)
    ensures p in RunAll(fs, paths, patch).1 <==> Rewritten(fs[p], patch)
  {
    var n := |paths|;
    var init := paths[..n - 1];
    var last := paths[n - 1];
    var prev := RunAll(fs, init, patch);
    if p == last {
      RunLeavesOthers(fs, init, p, patch);
      RunPatchedAmong(fs, init, patch);
    } else {
      var j :| 0 <= j < n && paths[j] == p;
      assert p in init by {
        assert init[j] == p;
      }
      RunOutcome(fs, init, p, patch);
    }
  }

  /** Every path the run lists is one it visited. */
  lemma {:induction false} RunPatchedAmong(fs: map<string, string>, paths: seq<string>, patch: string -> string)
    requires forall i :: 0 <= i < |paths| ==> paths[i] in fs
    ensures forall q :: q in RunAll(fs, paths, patch).1 ==> q in paths
    ensures |RunAll(fs, paths, patch).1| <= |paths|
  {
    if |paths| > 0 {
      var init := paths[..|paths| - 1];
      RunPatchedAmong(fs, init, patch);
      forall q | q in init ensures q in paths {
        var j :| 0 <= j < |init| && init[j] == q;
        assert paths[j] == q;
      }
    }
  }

  /**
   * Over the whole run as written, every visited file that holds `.getRangeAt(0)` and does not
   * yet define `safeGetRange` ends with `safeGetRangeFrom` calling itself.
   */
  lemma RunAsWrittenSelfCall(fs: map<string, string>, paths: seq<string>, p: string)
    requires forall i :: 0 <= i < |paths| ==> paths[i] in fs
    requires Distinct(paths) && p in paths
    requires Contains(fs[p], RangeCall) && !Contains(fs[p], Marker)
    ensures Contains(RunAll(fs, paths, PatchFileAsWritten).0[p], SelfCall)
  {
    RunOutcome(fs, paths, p, PatchFileAsWritten);
    AsWrittenSelfCall(fs[p]);
  }

  /**
   * Over the run in the intended order, every visited file that holds `.getRangeAt(0)` ends as
   * its rewritten source with the helper block inserted verbatim, or as the rewritten source
   * alone when that already defines `safeGetRange`.
   */
  lemma RunIntendedKeepsHelpers(fs: map<string, string>, paths: seq<string>, p: string)
    requires forall i :: 0 <= i < |paths| ==> paths[i] in fs
    requires Distinct(paths) && p in paths
    requires Contains(fs[p], RangeCall)
    ensures var t := PatchSrc(fs[p]);
      RunAll(fs, paths, PatchFile).0[p]
        == if Contains(t, Marker) then t else t[..InsertionPoint(t)] + HelpersThen(HelperLayout, SelCall, t[InsertionPoint(t)..])
  {
    RunOutcome(fs, paths, p, PatchFile);
    if !Contains(PatchSrc(fs[p]), Marker) {
      PatchFileKeepsHelpers(fs[p]);
    }
  }

  /** Lines 72-74: the report the run prints, one string per line. */
  function Report(patched: seq<string>): (lines: seq<string>)
    ensures |lines| == |patched| + 1
    ensures lines[0] == if |patched| > 0 then "Patched files:" else "No direct getRangeAt(0) usages found."
    ensures forall i :: 0 <= i < |patched| ==> lines[i + 1] == " - " + patched[i]
  {
    [if |patched| > 0 then "Patched files:" else "No direct getRangeAt(0) usages found."]
      + seq(|patched|, i requires 0 <= i < |patched| => " - " + patched[i])
  }
}
