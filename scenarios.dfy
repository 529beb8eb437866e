/**
 * The solutions the Two Fer test suite submits, and three more (an f-string,
 * a `.format` call, a missing `return`), as the node sequences `ast.walk`
 * yields for them (breadth first), and what `analyze` reports for each.
 * Nodes that no test of the walk looks at (`Module`, `arg`, `Constant`,
 * `BinOp`, `Name`, `Load`, ...) appear as `Other`.
 *
 * Each walk is followed one node at a time with `Walked`, which
 * `WalkedIsSummary` ties to the walk's specification.
 */
module TwoFerScenarios {
  import opened Wrappers
  import opened Analyzer

  /** A function name other than the one the analyser looks for. */
  const OneFer := "one_fer"

  // The effect of visiting one more node of each kind used below.

  lemma Visit(p: seq<Node>, n: Node)
    ensures Walked(p + [n]) == Step(Walked(p), n)
  {
    assert (p + [n])[..|p|] == p;
  }

  lemma VisitFirstOther()
    ensures Walked([Other]) == Start
  {
    Visit([], Other);
    assert [] + [Other] == [Other];
  }

  lemma VisitOther(p: seq<Node>, w: WalkState)
    requires Walked(p) == w
    ensures Walked(p + [Other]) == w
  {
    Visit(p, Other);
  }

  lemma VisitTwoFer(p: seq<Node>, w: WalkState)
    requires Walked(p) == w
    ensures Walked(p + [FunctionDef(TwoFer)]) == w.(hasMethod := true)
  {
    Visit(p, FunctionDef(TwoFer));
  }

  lemma VisitOtherFunction(p: seq<Node>, w: WalkState, name: string)
    requires Walked(p) == w
    requires name != TwoFer
    ensures Walked(p + [FunctionDef(name)]) == w
  {
    Visit(p, FunctionDef(name));
  }

  lemma VisitExpectedDefault(p: seq<Node>, w: WalkState)
    requires Walked(p) == w
    ensures Walked(p + [Arguments([StrLit(ExpectedDefault)])]) == w.(usesDefArg := true)
  {
    Visit(p, Arguments([StrLit(ExpectedDefault)]));
  }

  lemma VisitNoDefaults(p: seq<Node>, w: WalkState)
    requires Walked(p) == w
    ensures Walked(p + [Arguments([])]) == w
  {
    Visit(p, Arguments([]));
  }

  lemma VisitNonStrDefault(p: seq<Node>, w: WalkState)
    requires Walked(p) == w
    requires WrongDefArg !in w.comments
    ensures Walked(p + [Arguments([NonStr])]) == w.(comments := w.comments + [WrongDefArg], usesDefArg := true)
  {
    Visit(p, Arguments([NonStr]));
  }

  lemma VisitReturn(p: seq<Node>, w: WalkState)
    requires Walked(p) == w
    ensures Walked(p + [ReturnStmt]) == w.(hasReturn := true)
  {
    Visit(p, ReturnStmt);
  }

  lemma VisitFirstAdd(p: seq<Node>, w: WalkState)
    requires Walked(p) == w
    requires SimpleConcat !in w.comments
    ensures Walked(p + [AddOp]) == w.(comments := w.comments + [SimpleConcat])
  {
    Visit(p, AddOp);
  }

  lemma VisitRepeatedAdd(p: seq<Node>, w: WalkState)
    requires Walked(p) == w
    requires SimpleConcat in w.comments
    ensures Walked(p + [AddOp]) == w
  {
    Visit(p, AddOp);
  }

  lemma VisitIf(p: seq<Node>, w: WalkState)
    requires Walked(p) == w
    requires Conditionals !in w.comments
    ensures Walked(p + [IfStmt]) == w.(comments := w.comments + [Conditionals])
  {
    Visit(p, IfStmt);
  }

  lemma VisitMod(p: seq<Node>, w: WalkState)
    requires Walked(p) == w
    requires PercentFormatting !in w.comments
    ensures Walked(p + [ModOp]) == w.(comments := w.comments + [PercentFormatting])
  {
    Visit(p, ModOp);
  }

  lemma VisitFormatCall(p: seq<Node>, w: WalkState)
    requires Walked(p) == w
    ensures Walked(p + [Call(Some(FormatAttr))]) == w.(usesFormat := true)
  {
    Visit(p, Call(Some(FormatAttr)));
  }

  lemma VisitOtherCall(p: seq<Node>, w: WalkState)
    requires Walked(p) == w
    ensures Walked(p + [Call(None)]) == w
  {
    Visit(p, Call(None));
  }

  lemma VisitFormattedValue(p: seq<Node>, w: WalkState)
    requires Walked(p) == w
    ensures Walked(p + [FormattedValue]) == w.(usesFString := true)
  {
    Visit(p, FormattedValue);
  }

  /** What `analyze` returns for a parsed file follows from the state its walk ends in. */
  lemma AssessOfWalk(nodes: seq<Node>, pylintStdout: string, w: WalkState)
    requires Walked(nodes) == w
    ensures var comments := AddPostWalk(w.comments, w.hasMethod, w.usesDefArg, w.hasReturn);
            var approve := w.hasMethod && w.hasReturn;
            Assess(nodes, pylintStdout)
              == Analysis(comments, approve, [pylintStdout], StatusOf(approve, comments, w.usesFormat, w.usesFString))
  {
    WalkedIsSummary(nodes);
  }

  /** `def two_fer(name="you"): return "One for %s, one for me." % name` */
  const PercentNodes: seq<Node> :=
    [Other] + [FunctionDef(TwoFer)] + [Arguments([StrLit(ExpectedDefault)])] + [ReturnStmt]
    + [Other] + [Other] + [Other] + [Other] + [ModOp] + [Other] + [Other]

  lemma PercentWalk()
    ensures Walked(PercentNodes) == WalkState([PercentFormatting], true, true, true, false, false)
  {
    var w1 := Start.(hasMethod := true);
    var w2 := w1.(usesDefArg := true);
    var w3 := w2.(hasReturn := true);
    var w4 := w3.(comments := w3.comments + [PercentFormatting]);
    var p: seq<Node> := [Other];
    VisitFirstOther();
    VisitTwoFer(p, Start); p := p + [FunctionDef(TwoFer)];
    VisitExpectedDefault(p, w1); p := p + [Arguments([StrLit(ExpectedDefault)])];
    VisitReturn(p, w2); p := p + [ReturnStmt];
    VisitOther(p, w3); p := p + [Other];
    VisitOther(p, w3); p := p + [Other];
    VisitOther(p, w3); p := p + [Other];
    VisitOther(p, w3); p := p + [Other];
    VisitMod(p, w3); p := p + [ModOp];
    VisitOther(p, w4); p := p + [Other];
    VisitOther(p, w4); p := p + [Other];
    assert w4 == WalkState([PercentFormatting], true, true, true, false, false);
  }

  lemma PercentSolution(pylintStdout: string)
    ensures Assess(PercentNodes, pylintStdout)
         == Analysis([PercentFormatting], true, [pylintStdout], ReferToMentor)
  {
    PercentWalk();
    AssessOfWalk(PercentNodes, pylintStdout, WalkState([PercentFormatting], true, true, true, false, false));
  }

  /** `def one_fer(name="you"): return "One for %s, one for me." % name` */
  const OneFerNodes: seq<Node> :=
    [Other] + [FunctionDef(OneFer)] + [Arguments([StrLit(ExpectedDefault)])] + [ReturnStmt]
    + [Other] + [Other] + [Other] + [Other] + [ModOp] + [Other] + [Other]

  lemma OneFerWalk()
    ensures Walked(OneFerNodes) == WalkState([PercentFormatting], false, true, true, false, false)
  {
    var w1 := Start.(usesDefArg := true);
    var w2 := w1.(hasReturn := true);
    var w3 := w2.(comments := w2.comments + [PercentFormatting]);
    var p: seq<Node> := [Other];
    VisitFirstOther();
    VisitOtherFunction(p, Start, OneFer); p := p + [FunctionDef(OneFer)];
    VisitExpectedDefault(p, Start); p := p + [Arguments([StrLit(ExpectedDefault)])];
    VisitReturn(p, w1); p := p + [ReturnStmt];
    VisitOther(p, w2); p := p + [Other];
    VisitOther(p, w2); p := p + [Other];
    VisitOther(p, w2); p := p + [Other];
    VisitOther(p, w2); p := p + [Other];
    VisitMod(p, w2); p := p + [ModOp];
    VisitOther(p, w3); p := p + [Other];
    VisitOther(p, w3); p := p + [Other];
    assert w3 == WalkState([PercentFormatting], false, true, true, false, false);
  }

  lemma OneFerSolution(pylintStdout: string)
    ensures Assess(OneFerNodes, pylintStdout)
         == Analysis([PercentFormatting, NoMethod], false, [pylintStdout], DisapproveWithComment)
  {
    OneFerWalk();
    AssessOfWalk(OneFerNodes, pylintStdout, WalkState([PercentFormatting], false, true, true, false, false));
  }

  /** `def two_fer(name="you"): return "One for " + name + ", one for me."` */
  const ConcatNodes: seq<Node> :=
    [Other] + [FunctionDef(TwoFer)] + [Arguments([StrLit(ExpectedDefault)])] + [ReturnStmt]
    + [Other] + [Other] + [Other] + [Other] + [AddOp] + [Other] + [Other] + [AddOp] + [Other]
    + [Other]

  lemma ConcatWalk()
    ensures Walked(ConcatNodes) == WalkState([SimpleConcat], true, true, true, false, false)
  {
    var w1 := Start.(hasMethod := true);
    var w2 := w1.(usesDefArg := true);
    var w3 := w2.(hasReturn := true);
    var w4 := w3.(comments := w3.comments + [SimpleConcat]);
    var p: seq<Node> := [Other];
    VisitFirstOther();
    VisitTwoFer(p, Start); p := p + [FunctionDef(TwoFer)];
    VisitExpectedDefault(p, w1); p := p + [Arguments([StrLit(ExpectedDefault)])];
    VisitReturn(p, w2); p := p + [ReturnStmt];
    VisitOther(p, w3); p := p + [Other];
    VisitOther(p, w3); p := p + [Other];
    VisitOther(p, w3); p := p + [Other];
    VisitOther(p, w3); p := p + [Other];
    VisitFirstAdd(p, w3); p := p + [AddOp];
    VisitOther(p, w4); p := p + [Other];
    VisitOther(p, w4); p := p + [Other];
    VisitRepeatedAdd(p, w4); p := p + [AddOp];
    VisitOther(p, w4); p := p + [Other];
    VisitOther(p, w4); p := p + [Other];
    assert w4 == WalkState([SimpleConcat], true, true, true, false, false);
  }

  lemma ConcatSolution(pylintStdout: string)
    ensures Assess(ConcatNodes, pylintStdout)
         == Analysis([SimpleConcat], true, [pylintStdout], ReferToMentor)
  {
    ConcatWalk();
    AssessOfWalk(ConcatNodes, pylintStdout, WalkState([SimpleConcat], true, true, true, false, false));
  }

  /** `def two_fer(name): return "One for %s, one for me." % name` */
  const NoDefaultNodes: seq<Node> :=
    [Other] + [FunctionDef(TwoFer)] + [Arguments([])] + [ReturnStmt] + [Other] + [Other]
    + [Other] + [ModOp] + [Other] + [Other]

  lemma NoDefaultWalk()
    ensures Walked(NoDefaultNodes) == WalkState([PercentFormatting], true, false, true, false, false)
  {
    var w1 := Start.(hasMethod := true);
    var w2 := w1.(hasReturn := true);
    var w3 := w2.(comments := w2.comments + [PercentFormatting]);
    var p: seq<Node> := [Other];
    VisitFirstOther();
    VisitTwoFer(p, Start); p := p + [FunctionDef(TwoFer)];
    VisitNoDefaults(p, w1); p := p + [Arguments([])];
    VisitReturn(p, w1); p := p + [ReturnStmt];
    VisitOther(p, w2); p := p + [Other];
    VisitOther(p, w2); p := p + [Other];
    VisitOther(p, w2); p := p + [Other];
    VisitMod(p, w2); p := p + [ModOp];
    VisitOther(p, w3); p := p + [Other];
    VisitOther(p, w3); p := p + [Other];
    assert w3 == WalkState([PercentFormatting], true, false, true, false, false);
  }

  lemma NoDefaultSolution(pylintStdout: string)
    ensures Assess(NoDefaultNodes, pylintStdout)
         == Analysis([PercentFormatting, NoDefArg], true, [pylintStdout], ReferToMentor)
  {
    NoDefaultWalk();
    AssessOfWalk(NoDefaultNodes, pylintStdout, WalkState([PercentFormatting], true, false, true, false, false));
  }

  /** The first nine nodes of `ConditionalNodes`: up to both `return` statements. */
  const ConditionalHead: seq<Node> :=
    [Other] + [FunctionDef(TwoFer)] + [Arguments([NonStr])] + [IfStmt] + [Other] + [Other]
    + [Other] + [ReturnStmt] + [ReturnStmt]

  /** `def two_fer(name=None):` with an `if not name:` returning the fixed sentence and an `else:` returning the %-formatted one */
  const ConditionalNodes: seq<Node> :=
    ConditionalHead + [Other] + [Other] + [Other] + [Other] + [Other] + [Other] + [ModOp]
    + [Other] + [Other]

  lemma ConditionalHeadWalk()
    ensures Walked(ConditionalHead) == WalkState([WrongDefArg, Conditionals], true, true, true, false, false)
  {
    var w1 := Start.(hasMethod := true);
    var w2 := w1.(comments := w1.comments + [WrongDefArg], usesDefArg := true);
    var w3 := w2.(comments := w2.comments + [Conditionals]);
    var w4 := w3.(hasReturn := true);
    var p: seq<Node> := [Other];
    VisitFirstOther();
    VisitTwoFer(p, Start); p := p + [FunctionDef(TwoFer)];
    VisitNonStrDefault(p, w1); p := p + [Arguments([NonStr])];
    VisitIf(p, w2); p := p + [IfStmt];
    VisitOther(p, w3); p := p + [Other];
    VisitOther(p, w3); p := p + [Other];
    VisitOther(p, w3); p := p + [Other];
    VisitReturn(p, w3); p := p + [ReturnStmt];
    VisitReturn(p, w4); p := p + [ReturnStmt];
    assert w4 == WalkState([WrongDefArg, Conditionals], true, true, true, false, false);
  }

  lemma ConditionalWalk()
    ensures Walked(ConditionalNodes) == WalkState([WrongDefArg, Conditionals, PercentFormatting], true, true, true, false, false)
  {
    var w := WalkState([WrongDefArg, Conditionals], true, true, true, false, false);
    var w' := w.(comments := w.comments + [PercentFormatting]);
    ConditionalHeadWalk();
    var p := ConditionalHead;
    VisitOther(p, w); p := p + [Other];
    VisitOther(p, w); p := p + [Other];
    VisitOther(p, w); p := p + [Other];
    VisitOther(p, w); p := p + [Other];
    VisitOther(p, w); p := p + [Other];
    VisitOther(p, w); p := p + [Other];
    VisitMod(p, w); p := p + [ModOp];
    VisitOther(p, w'); p := p + [Other];
    VisitOther(p, w'); p := p + [Other];
    assert w' == WalkState([WrongDefArg, Conditionals, PercentFormatting], true, true, true, false, false);
  }

  lemma ConditionalSolution(pylintStdout: string)
    ensures Assess(ConditionalNodes, pylintStdout)
         == Analysis([WrongDefArg, Conditionals, PercentFormatting], true, [pylintStdout], ReferToMentor)
  {
    ConditionalWalk();
    AssessOfWalk(ConditionalNodes, pylintStdout, WalkState([WrongDefArg, Conditionals, PercentFormatting], true, true, true, false, false));
  }

  /** `def two_fer(name="you"): return f"One for {name}, one for me."` */
  const FStringNodes: seq<Node> :=
    [Other] + [FunctionDef(TwoFer)] + [Arguments([StrLit(ExpectedDefault)])] + [ReturnStmt]
    + [Other] + [Other] + [Other] + [Other] + [FormattedValue] + [Other] + [Other] + [Other]

  lemma FStringWalk()
    ensures Walked(FStringNodes) == WalkState([], true, true, true, false, true)
  {
    var w1 := Start.(hasMethod := true);
    var w2 := w1.(usesDefArg := true);
    var w3 := w2.(hasReturn := true);
    var w4 := w3.(usesFString := true);
    var p: seq<Node> := [Other];
    VisitFirstOther();
    VisitTwoFer(p, Start); p := p + [FunctionDef(TwoFer)];
    VisitExpectedDefault(p, w1); p := p + [Arguments([StrLit(ExpectedDefault)])];
    VisitReturn(p, w2); p := p + [ReturnStmt];
    VisitOther(p, w3); p := p + [Other];
    VisitOther(p, w3); p := p + [Other];
    VisitOther(p, w3); p := p + [Other];
    VisitOther(p, w3); p := p + [Other];
    VisitFormattedValue(p, w3); p := p + [FormattedValue];
    VisitOther(p, w4); p := p + [Other];
    VisitOther(p, w4); p := p + [Other];
    VisitOther(p, w4); p := p + [Other];
    assert w4 == WalkState([], true, true, true, false, true);
  }

  lemma FStringSolution(pylintStdout: string)
    ensures Assess(FStringNodes, pylintStdout)
         == Analysis([], true, [pylintStdout], ApproveAsOptimal)
  {
    FStringWalk();
    AssessOfWalk(FStringNodes, pylintStdout, WalkState([], true, true, true, false, true));
  }

  /** `def two_fer(name="you"): return "One for {}, one for me.".format(name)` */
  const FormatNodes: seq<Node> :=
    [Other] + [FunctionDef(TwoFer)] + [Arguments([StrLit(ExpectedDefault)])] + [ReturnStmt]
    + [Other] + [Other] + [Call(Some(FormatAttr))] + [Other] + [Other] + [Other] + [Other]
    + [Other]

  lemma FormatWalk()
    ensures Walked(FormatNodes) == WalkState([], true, true, true, true, false)
  {
    var w1 := Start.(hasMethod := true);
    var w2 := w1.(usesDefArg := true);
    var w3 := w2.(hasReturn := true);
    var w4 := w3.(usesFormat := true);
    var p: seq<Node> := [Other];
    VisitFirstOther();
    VisitTwoFer(p, Start); p := p + [FunctionDef(TwoFer)];
    VisitExpectedDefault(p, w1); p := p + [Arguments([StrLit(ExpectedDefault)])];
    VisitReturn(p, w2); p := p + [ReturnStmt];
    VisitOther(p, w3); p := p + [Other];
    VisitOther(p, w3); p := p + [Other];
    VisitFormatCall(p, w3); p := p + [Call(Some(FormatAttr))];
    VisitOther(p, w4); p := p + [Other];
    VisitOther(p, w4); p := p + [Other];
    VisitOther(p, w4); p := p + [Other];
    VisitOther(p, w4); p := p + [Other];
    VisitOther(p, w4); p := p + [Other];
    assert w4 == WalkState([], true, true, true, true, false);
  }

  lemma FormatSolution(pylintStdout: string)
    ensures Assess(FormatNodes, pylintStdout)
         == Analysis([], true, [pylintStdout], ApproveAsOptimal)
  {
    FormatWalk();
    AssessOfWalk(FormatNodes, pylintStdout, WalkState([], true, true, true, true, false));
  }

  /** `def two_fer(name="you"): print(f"One for {name}, one for me.")` */
  const NoReturnNodes: seq<Node> :=
    [Other] + [FunctionDef(TwoFer)] + [Arguments([StrLit(ExpectedDefault)])] + [Other] + [Other]
    + [Other] + [Call(None)] + [Other] + [Other] + [Other] + [Other] + [FormattedValue]
    + [Other] + [Other] + [Other]

  lemma NoReturnWalk()
    ensures Walked(NoReturnNodes) == WalkState([], true, true, false, false, true)
  {
    var w1 := Start.(hasMethod := true);
    var w2 := w1.(usesDefArg := true);
    var w3 := w2.(usesFString := true);
    var p: seq<Node> := [Other];
    VisitFirstOther();
    VisitTwoFer(p, Start); p := p + [FunctionDef(TwoFer)];
    VisitExpectedDefault(p, w1); p := p + [Arguments([StrLit(ExpectedDefault)])];
    VisitOther(p, w2); p := p + [Other];
    VisitOther(p, w2); p := p + [Other];
    VisitOther(p, w2); p := p + [Other];
    VisitOtherCall(p, w2); p := p + [Call(None)];
    VisitOther(p, w2); p := p + [Other];
    VisitOther(p, w2); p := p + [Other];
    VisitOther(p, w2); p := p + [Other];
    VisitOther(p, w2); p := p + [Other];
    VisitFormattedValue(p, w2); p := p + [FormattedValue];
    VisitOther(p, w3); p := p + [Other];
    VisitOther(p, w3); p := p + [Other];
    VisitOther(p, w3); p := p + [Other];
    assert w3 == WalkState([], true, true, false, false, true);
  }

  lemma NoReturnSolution(pylintStdout: string)
    ensures Assess(NoReturnNodes, pylintStdout)
         == Analysis([NoReturn], false, [pylintStdout], DisapproveWithComment)
  {
    NoReturnWalk();
    AssessOfWalk(NoReturnNodes, pylintStdout, WalkState([], true, true, false, false, true));
  }
}
