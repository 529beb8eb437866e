/**
  What one analysis of a parsed solution promises: no comment twice, which
  comment appears exactly when, in which order, when a solution is approved,
  and which status it receives.
 */
module AnalyzerFacts {
  import opened Wrappers
  import opened Analyzer

  /** Which node calls for each walk-time comment. */
  lemma TriggerCases(n: Node)
    ensures Trigger(n) == Some(SimpleConcat) <==> n == AddOp
    ensures Trigger(n) == Some(Conditionals) <==> n == IfStmt
    ensures Trigger(n) == Some(PercentFormatting) <==> n == ModOp
    ensures Trigger(n) == Some(WrongDefArg) <==> IsWrongDefault(n)
    ensures Trigger(n).Some? ==> Trigger(n).value in WalkMessages
  {
  }

  /** The walk leaves a comment exactly when some node calls for it, and only walk-time kinds. */
  lemma WalkCommentsMembership(nodes: seq<Node>, m: Feedback)
    ensures m in Summary(nodes).comments <==> exists i | 0 <= i < |nodes| :: Trigger(nodes[i]) == Some(m)
    ensures m in Summary(nodes).comments ==> m in WalkMessages
  {
    if m in Summary(nodes).comments {
      var i :| 0 <= i < |nodes| && Trigger(nodes[i]) == Some(m);
      TriggerCases(nodes[i]);
    }
  }

  /** A comment is present after the checks following the walk exactly when the walk left it or its check failed. */
  lemma AddPostWalkMembership(c: seq<Feedback>, hasMethod: bool, usesDefArg: bool, hasReturn: bool, m: Feedback)
    ensures m in AddPostWalk(c, hasMethod, usesDefArg, hasReturn) <==>
      m in c || (m == NoMethod && !hasMethod) || (m == NoDefArg && !usesDefArg) || (m == NoReturn && !hasReturn)
  {
  }

  /** When each comment is present in the final list. */
  lemma CommentMembership(nodes: seq<Node>, pylintStdout: string, m: Feedback)
    ensures m in Assess(nodes, pylintStdout).comments <==>
      || (exists i | 0 <= i < |nodes| :: Trigger(nodes[i]) == Some(m))
      || (m == NoMethod && !DefinesTwoFer(nodes))
      || (m == NoDefArg && !UsesDefaults(nodes))
      || (m == NoReturn && !Returns(nodes))
    ensures m in Assess(nodes, pylintStdout).comments ==> m in WalkMessages || m in PostWalkMessages
  {
    var w := Summary(nodes);
    WalkCommentsMembership(nodes, m);
    AddPostWalkMembership(w.comments, w.hasMethod, w.usesDefArg, w.hasReturn, m);
  }

  lemma AppendFresh(s: seq<Feedback>, x: Feedback)
    requires NoDuplicates(s) && x !in s
    ensures NoDuplicates(s + [x])
  {
  }

  /** No comment appears twice, whatever nodes repeat; the messages shown are therefore all different. */
  lemma CommentsAreUnique(nodes: seq<Node>, pylintStdout: string)
    ensures NoDuplicates(Assess(nodes, pylintStdout).comments)
    ensures var c := Assess(nodes, pylintStdout).comments;
      forall i, j | 0 <= i < j < |c| :: c[i].Text() != c[j].Text()
  {
    var w := Summary(nodes);
    WalkCommentsMembership(nodes, NoMethod);
    WalkCommentsMembership(nodes, NoDefArg);
    WalkCommentsMembership(nodes, NoReturn);
    var c1 := if w.hasMethod then w.comments else w.comments + [NoMethod];
    if !w.hasMethod { AppendFresh(w.comments, NoMethod); }
    var c2 := if w.usesDefArg then c1 else c1 + [NoDefArg];
    if !w.usesDefArg { AppendFresh(c1, NoDefArg); }
    if !w.hasReturn { AppendFresh(c2, NoReturn); }
    var c := Assess(nodes, pylintStdout).comments;
    forall i, j | 0 <= i < j < |c| ensures c[i].Text() != c[j].Text() {
      TextInjective(c[i], c[j]);
    }
  }

  /** Each walk-time comment appears exactly when a node of its kind occurs. */
  lemma WalkCommentsIff(nodes: seq<Node>, pylintStdout: string)
    ensures var c := Assess(nodes, pylintStdout).comments;
      && (SimpleConcat in c <==> AddOp in nodes)
      && (Conditionals in c <==> IfStmt in nodes)
      && (PercentFormatting in c <==> ModOp in nodes)
      && (WrongDefArg in c <==> exists i | 0 <= i < |nodes| :: IsWrongDefault(nodes[i]))
  {
    forall i | 0 <= i < |nodes| {
      TriggerCases(nodes[i]);
    }
    CommentMembership(nodes, pylintStdout, SimpleConcat);
    CommentMembership(nodes, pylintStdout, Conditionals);
    CommentMembership(nodes, pylintStdout, PercentFormatting);
    CommentMembership(nodes, pylintStdout, WrongDefArg);
  }

  /** Each comment added after the walk appears exactly when its condition failed. */
  lemma PostWalkCommentsIff(nodes: seq<Node>, pylintStdout: string)
    ensures var c := Assess(nodes, pylintStdout).comments;
      && (NoMethod in c <==> !DefinesTwoFer(nodes))
      && (NoDefArg in c <==> !UsesDefaults(nodes))
      && (NoReturn in c <==> !Returns(nodes))
  {
    forall i | 0 <= i < |nodes| {
      TriggerCases(nodes[i]);
    }
    CommentMembership(nodes, pylintStdout, NoMethod);
    CommentMembership(nodes, pylintStdout, NoDefArg);
    CommentMembership(nodes, pylintStdout, NoReturn);
  }

  /** Every comment is one of the seven kinds the walk and the checks after it can add. */
  lemma CommentKinds(nodes: seq<Node>, pylintStdout: string)
    ensures forall m | m in Assess(nodes, pylintStdout).comments :: m in WalkMessages || m in PostWalkMessages
  {
    forall m | m in Assess(nodes, pylintStdout).comments ensures m in WalkMessages || m in PostWalkMessages {
      CommentMembership(nodes, pylintStdout, m);
    }
  }

  /**
    A solution is approvable exactly when it defines `two_fer` and returns
    something; equivalently, when neither the missing-method nor the
    missing-return comment was added. Default arguments play no part.
   */
  lemma ApproveIff(nodes: seq<Node>, pylintStdout: string)
    ensures var a := Assess(nodes, pylintStdout);
      && (a.approve <==> DefinesTwoFer(nodes) && Returns(nodes))
      && (a.approve <==> NoMethod !in a.comments && NoReturn !in a.comments)
  {
    PostWalkCommentsIff(nodes, pylintStdout);
  }

  /** The status, stated over the nodes: optimal exactly for an approvable solution
      that draws no comment and formats with `.format` or an f-string. */
  lemma StatusIff(nodes: seq<Node>, pylintStdout: string)
    ensures var s := Assess(nodes, pylintStdout).status;
      && (s == ApproveAsOptimal <==>
            DefinesTwoFer(nodes) && Returns(nodes) && UsesDefaults(nodes)
            && (forall i | 0 <= i < |nodes| :: !IsWrongDefault(nodes[i]))
            && AddOp !in nodes && IfStmt !in nodes && ModOp !in nodes
            && (CallsFormat(nodes) || HasFormattedValue(nodes)))
      && (s == DisapproveWithComment <==> !DefinesTwoFer(nodes) || !Returns(nodes))
      && (s == ReferToMentor <==> s != ApproveAsOptimal && s != DisapproveWithComment)
  {
    var c := Assess(nodes, pylintStdout).comments;
    WalkCommentsIff(nodes, pylintStdout);
    PostWalkCommentsIff(nodes, pylintStdout);
    CommentKinds(nodes, pylintStdout);
    if c != [] {
      assert c[0] in c;
    }
  }

  /** Concatenation, %-formatting or a conditional anywhere rules out optimal approval. */
  lemma NoOptimalWithConcatPercentOrIf(nodes: seq<Node>, pylintStdout: string)
    requires AddOp in nodes || ModOp in nodes || IfStmt in nodes
    ensures Assess(nodes, pylintStdout).status != ApproveAsOptimal
  {
    WalkCommentsIff(nodes, pylintStdout);
  }

  // ---------------------------------------------------------------------------
  // Order of the comments
  // ---------------------------------------------------------------------------

  /** Some node calls for `a` before any node calls for `b`. */
  ghost predicate CalledForBefore(nodes: seq<Node>, a: Feedback, b: Feedback) {
    exists k | 0 <= k < |nodes| ::
      Trigger(nodes[k]) == Some(a) && forall k' | 0 <= k' <= k :: Trigger(nodes[k']) != Some(b)
  }

  /** Appending a node keeps every earlier order between comments. */
  lemma CalledForBeforeAppend(nodes: seq<Node>, n: Node, a: Feedback, b: Feedback)
    requires CalledForBefore(nodes, a, b)
    ensures CalledForBefore(nodes + [n], a, b)
  {
    var q := nodes + [n];
    var k :| 0 <= k < |nodes| && Trigger(nodes[k]) == Some(a)
             && forall k' | 0 <= k' <= k :: Trigger(nodes[k']) != Some(b);
    assert forall k' | 0 <= k' <= k :: q[k'] == nodes[k'];
  }

  /** A comment first called for by the appended node comes after every comment already present. */
  lemma CalledForBeforeNew(nodes: seq<Node>, n: Node, a: Feedback, b: Feedback)
    requires a in Summary(nodes).comments && b !in Summary(nodes).comments
    ensures CalledForBefore(nodes + [n], a, b)
  {
    WalkCommentsMembership(nodes, a);
    WalkCommentsMembership(nodes, b);
    var q := nodes + [n];
    var k :| 0 <= k < |nodes| && Trigger(nodes[k]) == Some(a);
    assert forall k' | 0 <= k' <= k :: q[k'] == nodes[k'];
  }

  /** The walk's comments are in the order of the first node calling for each. */
  lemma {:induction false} WalkOrder(nodes: seq<Node>)
    ensures var w := Summary(nodes).comments;
      forall i, j | 0 <= i < j < |w| :: CalledForBefore(nodes, w[i], w[j])
  {
    if nodes != [] {
      var prefix, n := nodes[..|nodes| - 1], nodes[|nodes| - 1];
      assert nodes == prefix + [n];
      WalkOrder(prefix);
      CommentsAppend(prefix, n);
      var w0, w := Summary(prefix).comments, Summary(nodes).comments;
      forall i, j | 0 <= i < j < |w| ensures CalledForBefore(nodes, w[i], w[j]) {
        if j < |w0| {
          CalledForBeforeAppend(prefix, n, w0[i], w0[j]);
        } else {
          CalledForBeforeNew(prefix, n, w0[i], w[j]);
        }
      }
    }
  }

  /** The comments added after the walk, in their fixed order. */
  function PostWalkComments(hasMethod: bool, usesDefArg: bool, hasReturn: bool): seq<Feedback> {
    (if hasMethod then [] else [NoMethod])
    + (if usesDefArg then [] else [NoDefArg])
    + (if hasReturn then [] else [NoReturn])
  }

  lemma AddPostWalkAppends(c: seq<Feedback>, hasMethod: bool, usesDefArg: bool, hasReturn: bool)
    ensures AddPostWalk(c, hasMethod, usesDefArg, hasReturn) == c + PostWalkComments(hasMethod, usesDefArg, hasReturn)
  {
  }

  /** The position of each comment added after the walk. */
  function PostWalkRank(f: Feedback): nat
    requires f in PostWalkMessages
  {
    match f
    case NoMethod => 0
    case NoDefArg => 1
    case NoReturn => 2
  }

  lemma PostWalkOrdered(hasMethod: bool, usesDefArg: bool, hasReturn: bool)
    ensures var p := PostWalkComments(hasMethod, usesDefArg, hasReturn);
      forall i | 0 <= i < |p| :: p[i] in PostWalkMessages
    ensures var p := PostWalkComments(hasMethod, usesDefArg, hasReturn);
      forall i, j | 0 <= i < j < |p| :: p[i] in PostWalkMessages && p[j] in PostWalkMessages
        && PostWalkRank(p[i]) < PostWalkRank(p[j])
  {
  }

  /** Walk-time comments followed by post-walk comments keep the order of each part. */
  lemma ConcatOrder(nodes: seq<Node>, w: seq<Feedback>, post: seq<Feedback>)
    requires forall i | 0 <= i < |w| :: w[i] in WalkMessages
    requires forall i, j | 0 <= i < j < |w| :: CalledForBefore(nodes, w[i], w[j])
    requires forall i, j | 0 <= i < j < |post| :: post[i] in PostWalkMessages && post[j] in PostWalkMessages
               && PostWalkRank(post[i]) < PostWalkRank(post[j])
    requires forall i | 0 <= i < |post| :: post[i] in PostWalkMessages
    ensures var c := w + post;
      && (forall i, j | 0 <= i < j < |c| && c[j] in WalkMessages ::
            c[i] in WalkMessages && CalledForBefore(nodes, c[i], c[j]))
      && (forall i, j | 0 <= i < j < |c| && c[i] in PostWalkMessages ::
            c[j] in PostWalkMessages && PostWalkRank(c[i]) < PostWalkRank(c[j]))
  {
    var c := w + post;
    assert forall k | 0 <= k < |w| :: c[k] == w[k];
    assert forall k | |w| <= k < |c| :: c[k] == post[k - |w|];
  }

  /**
    Walk-time comments come first, in the order of the first node calling for
    each; the comments added after the walk follow, as missing method, missing
    default argument, missing return.
   */
  lemma CommentOrder(nodes: seq<Node>, pylintStdout: string)
    ensures var c := Assess(nodes, pylintStdout).comments;
      && (forall i, j | 0 <= i < j < |c| && c[j] in WalkMessages ::
            c[i] in WalkMessages && CalledForBefore(nodes, c[i], c[j]))
      && (forall i, j | 0 <= i < j < |c| && c[i] in PostWalkMessages ::
            c[j] in PostWalkMessages && PostWalkRank(c[i]) < PostWalkRank(c[j]))
  {
    var w := Summary(nodes);
    AddPostWalkAppends(w.comments, w.hasMethod, w.usesDefArg, w.hasReturn);
    WalkOrder(nodes);
    PostWalkOrdered(w.hasMethod, w.usesDefArg, w.hasReturn);
    forall i | 0 <= i < |w.comments| ensures w.comments[i] in WalkMessages {
      WalkCommentsMembership(nodes, w.comments[i]);
    }
    ConcatOrder(nodes, w.comments, PostWalkComments(w.hasMethod, w.usesDefArg, w.hasReturn));
  }
}
