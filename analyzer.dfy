/**
  The "two fer" feedback engine: one call inspects a submitted solution and
  returns a list of feedback comments, an approve flag, the style checker's
  raw output and a status.

  The parsed solution is given abstractly, as the sequence of syntax nodes in
  the order the tree walk visits them; reading the file and parsing it are
  represented only by their outcome (`Source`), and the style checker's output
  by an uninterpreted string.
 */
module Analyzer {
  import opened Wrappers

  // ---------------------------------------------------------------------------
  // Feedback messages
  // ---------------------------------------------------------------------------

  /** The kinds of feedback comment; `Text` is the message shown for each. */
  datatype Feedback =
    | NoModule | NoMethod | MalformedCode | SimpleConcat | NoDefArg
    | Conditionals | NoReturn | WrongDefArg | PercentFormatting
  {
    function Text(): string {
      match this
      case NoModule => "No module called two_fer.py found in file path."
      case NoMethod => "No method called two_fer."
      case MalformedCode => "The code is malformed and cannot be parsed for analysis."
      case SimpleConcat =>
        "String concatenation with the + operator is a valid approach, but f-strings and str.format offer more "
        + "functionality and elegant solutions."
      case NoDefArg =>
        "No default arguments are used in this solution. An ideal solution should make use of a default argument "
        + "and either f-strings or str.format."
      case Conditionals =>
        "Conditionals are unnecessarily used in this solution. An ideal solution should make use of a default "
        + "argument and either f-strings or str.format."
      // The two halves are joined without a space ("insidethe"), as in the source.
      case NoReturn =>
        "'return' is not used to return the result string. This solution should fail pytest. Try run 'pytest' inside"
        + "the two-fer directory and observe the pass/fail results."
      case WrongDefArg => "A value other than 'you' is used as a default argument."
      case PercentFormatting =>
        "%-formatting is a valid approach, but f-strings and str.format offer more functionality and "
        + "elegant solutions."
    }
  }

  /** The length of each kind's message; the nine lengths are pairwise different. */
  function TextLength(f: Feedback): nat {
    match f
    case NoModule => 47
    case NoMethod => 25
    case MalformedCode => 56
    case SimpleConcat => 138
    case NoDefArg => 139
    case Conditionals => 145
    case NoReturn => 163
    case WrongDefArg => 55
    case PercentFormatting => 110
  }

  lemma TextHasLength(f: Feedback)
    ensures |f.Text()| == TextLength(f)
  {
    match f
    case NoModule =>
    case NoMethod =>
    case MalformedCode =>
    case SimpleConcat =>
    case NoDefArg =>
    case Conditionals =>
    case NoReturn =>
    case WrongDefArg =>
    case PercentFormatting =>
  }

  /** Different kinds of comment show different messages, so a list of kinds
      without repeats is a list of messages without repeats. */
  lemma TextInjective(a: Feedback, b: Feedback)
    ensures a.Text() == b.Text() ==> a == b
  {
    TextHasLength(a);
    TextHasLength(b);
  }

  /** The comments the tree walk may add, and those the checks after the walk may add. */
  const WalkMessages: set<Feedback> := {SimpleConcat, WrongDefArg, Conditionals, PercentFormatting}
  const PostWalkMessages: set<Feedback> := {NoMethod, NoDefArg, NoReturn}

  const TwoFer: string := "two_fer"
  const ExpectedDefault: string := "you"
  const FormatAttr: string := "format"

  // ---------------------------------------------------------------------------
  // Data model
  // ---------------------------------------------------------------------------

  /** A default value of a parameter: a string literal, or anything else
      (a number, None, a name, ... -- whatever has no string value `.s`). */
  datatype Default = StrLit(s: string) | NonStr

  /** The syntax nodes the analyzer distinguishes; every other node is `Other`. */
  datatype Node =
    | FunctionDef(name: string)
    | AddOp
    | Arguments(defaults: seq<Default>)
    | IfStmt
    | ModOp
    | ReturnStmt
    | Call(attr: Option<string>)   // None: the callee has no attribute name
    | FormattedValue
    | Other

  /** What reading and parsing the submitted file produced. */
  datatype Source = ReadFailed | ParseFailed | Parsed(nodes: seq<Node>)

  datatype Status = ApproveAsOptimal | DisapproveWithComment | ReferToMentor {
    /** The status as it is written in the result. */
    function Name(): string {
      match this
      case ApproveAsOptimal => "approve_as_optimal"
      case DisapproveWithComment => "disapprove_with_comment"
      case ReferToMentor => "refer_to_mentor"
    }
  }

  /** The 4-tuple `analyze` returns. */
  datatype Analysis = Analysis(comments: seq<Feedback>, approve: bool, pylintComments: seq<string>, status: Status)

  predicate NoDuplicates<T(==)>(s: seq<T>) {
    forall i, j | 0 <= i < j < |s| :: s[i] != s[j]
  }

  // ---------------------------------------------------------------------------
  // Specification of one analysis
  // ---------------------------------------------------------------------------

  /** A parameter list whose first default is not the string 'you'
      (a default with no string value counts as not 'you'). */
  predicate IsWrongDefault(n: Node) {
    n.Arguments? && |n.defaults| > 0 && n.defaults[0] != StrLit(ExpectedDefault)
  }

  /** A parameter list with at least one default. */
  predicate HasDefaults(n: Node) {
    n.Arguments? && |n.defaults| > 0
  }

  predicate DefinesTwoFer(nodes: seq<Node>) { FunctionDef(TwoFer) in nodes }
  predicate Returns(nodes: seq<Node>) { ReturnStmt in nodes }
  predicate CallsFormat(nodes: seq<Node>) { Call(Some(FormatAttr)) in nodes }
  predicate HasFormattedValue(nodes: seq<Node>) { FormattedValue in nodes }
  predicate UsesDefaults(nodes: seq<Node>) {
    exists i | 0 <= i < |nodes| :: HasDefaults(nodes[i])
  }

  /** The comment a single node calls for during the walk, if any. */
  function Trigger(n: Node): Option<Feedback> {
    match n
    case AddOp => Some(SimpleConcat)
    case Arguments(_) => if IsWrongDefault(n) then Some(WrongDefArg) else None
    case IfStmt => Some(Conditionals)
    case ModOp => Some(PercentFormatting)
    case _ => None
  }

  function OptionToSeq<T>(o: Option<T>): seq<T> {
    if o.Some? then [o.value] else []
  }

  /** Every comment the walk calls for, one per triggering node, in walk order. */
  function Triggered(nodes: seq<Node>): (r: seq<Feedback>)
    ensures forall m :: m in r <==> exists i | 0 <= i < |nodes| :: Trigger(nodes[i]) == Some(m)
  {
    if nodes == [] then []
    else
      var prefix := nodes[..|nodes| - 1];
      var r := Triggered(prefix) + OptionToSeq(Trigger(nodes[|nodes| - 1]));
      assert forall i | 0 <= i < |prefix| :: prefix[i] == nodes[i];
      r
  }

  /** `s` with every element after its first occurrence dropped. */
  function Dedup(s: seq<Feedback>): (r: seq<Feedback>)
    ensures NoDuplicates(r)
    ensures forall x :: x in r <==> x in s
  {
    if s == [] then []
    else
      var prev := Dedup(s[..|s| - 1]);
      var x := s[|s| - 1];
      assert s == s[..|s| - 1] + [x];
      if x in prev then prev else prev + [x]
  }

  /** What the walk has accumulated: the comments so far and the five flags. */
  datatype WalkState = WalkState(
    comments: seq<Feedback>,
    hasMethod: bool,
    usesDefArg: bool,
    hasReturn: bool,
    usesFormat: bool,
    usesFString: bool)

  /** The state after walking `nodes`, stated over the whole sequence at once:
      each walk-time comment once, in order of first occurrence, and each flag
      set exactly when some node calls for it. */
  ghost function Summary(nodes: seq<Node>): WalkState {
    WalkState(Dedup(Triggered(nodes)), DefinesTwoFer(nodes), UsesDefaults(nodes),
              Returns(nodes), CallsFormat(nodes), HasFormattedValue(nodes))
  }

  /** The effect of walking one more node: its comment is added unless already present,
      and each flag is set when the node calls for it. */
  function Step(w: WalkState, n: Node): WalkState {
    var t := Trigger(n);
    WalkState(
      if t.Some? && t.value !in w.comments then w.comments + [t.value] else w.comments,
      w.hasMethod || n == FunctionDef(TwoFer),
      w.usesDefArg || HasDefaults(n),
      w.hasReturn || n == ReturnStmt,
      w.usesFormat || n == Call(Some(FormatAttr)),
      w.usesFString || n == FormattedValue)
  }

  /** The state the walk starts from: no comments, every flag unset. */
  const Start := WalkState([], false, false, false, false, false)

  /** The state reached by visiting `nodes` in order from `Start`, one `Step` at a time. */
  ghost function Walked(nodes: seq<Node>): WalkState
    decreases |nodes|
  {
    if nodes == [] then Start else Step(Walked(nodes[..|nodes| - 1]), nodes[|nodes| - 1])
  }

  /** `comments` followed by the comments the checks after the walk add, in their fixed order. */
  function AddPostWalk(comments: seq<Feedback>, hasMethod: bool, usesDefArg: bool, hasReturn: bool): seq<Feedback> {
    var c1 := if hasMethod then comments else comments + [NoMethod];
    var c2 := if usesDefArg then c1 else c1 + [NoDefArg];
    if hasReturn then c2 else c2 + [NoReturn]
  }

  /** The status rule, tried in order: optimal, then disapproved, then mentor. */
  function StatusOf(approve: bool, comments: seq<Feedback>, usesFormat: bool, usesFString: bool): (r: Status)
    ensures r == ApproveAsOptimal <==> approve && comments == [] && (usesFormat || usesFString)
    ensures r == DisapproveWithComment <==> !approve
    ensures r == ReferToMentor <==> approve && (comments != [] || (!usesFormat && !usesFString))
  {
    if approve && comments == [] && (usesFormat || usesFString) then ApproveAsOptimal
    else if !approve then DisapproveWithComment
    else ReferToMentor
  }

  /** What analysing a parsed solution yields. */
  ghost function Assess(nodes: seq<Node>, pylintStdout: string): Analysis {
    var w := Summary(nodes);
    var comments := AddPostWalk(w.comments, w.hasMethod, w.usesDefArg, w.hasReturn);
    var approve := w.hasMethod && w.hasReturn;
    Analysis(comments, approve, [pylintStdout], StatusOf(approve, comments, w.usesFormat, w.usesFString))
  }

  // ---------------------------------------------------------------------------
  // The analysis
  // ---------------------------------------------------------------------------

  /** Walking one more node adds that node's comment, unless it is already present. */
  lemma CommentsAppend(nodes: seq<Node>, n: Node)
    ensures var c, t := Dedup(Triggered(nodes)), Trigger(n);
      Dedup(Triggered(nodes + [n])) == if t.Some? && t.value !in c then c + [t.value] else c
  {
    var q := nodes + [n];
    assert q[..|q| - 1] == nodes;
    var t := Trigger(n);
    if t.Some? {
      var s := Triggered(nodes) + [t.value];
      assert s[..|s| - 1] == Triggered(nodes);
    } else {
      assert Triggered(nodes) + OptionToSeq(t) == Triggered(nodes);
    }
  }

  lemma UsesDefaultsAppend(nodes: seq<Node>, n: Node)
    ensures UsesDefaults(nodes + [n]) <==> UsesDefaults(nodes) || HasDefaults(n)
  {
    var q := nodes + [n];
    assert forall k | 0 <= k < |nodes| :: q[k] == nodes[k];
    assert q[|nodes|] == n;
  }

  /** Walking one more node extends the summary by that node alone. */
  lemma SummaryAppend(nodes: seq<Node>, n: Node)
    ensures Summary(nodes + [n]) == Step(Summary(nodes), n)
  {
    CommentsAppend(nodes, n);
    UsesDefaultsAppend(nodes, n);
  }

  /** Visiting the nodes one at a time with `Step` ends in their summary. */
  lemma {:induction false} WalkedIsSummary(nodes: seq<Node>)
    ensures Walked(nodes) == Summary(nodes)
    decreases |nodes|
  {
    if nodes != [] {
      var prefix, last := nodes[..|nodes| - 1], nodes[|nodes| - 1];
      assert nodes == prefix + [last];
      WalkedIsSummary(prefix);
      SummaryAppend(prefix, last);
    }
  }

  /**
    One iteration of the walk: the chain of node tests, of which at most one
    fires, followed by the formatted-value test that every node gets.
   */
  method VisitNode(st: WalkState, node: Node) returns (next: WalkState)
    ensures next == Step(st, node)
  {
    var comments := st.comments;
    var hasMethod, usesDefArg, hasReturn, usesFormat, usesFString :=
      st.hasMethod, st.usesDefArg, st.hasReturn, st.usesFormat, st.usesFString;
    if node.FunctionDef? {
      if node.name == TwoFer {
        hasMethod := true;
      }
    } else if node.AddOp? && SimpleConcat !in comments {
      comments := comments + [SimpleConcat];
    } else if node.Arguments? {
      if |node.defaults| > 0 {
        usesDefArg := true;
        match node.defaults[0]
        case StrLit(s) =>
          if s != ExpectedDefault && WrongDefArg !in comments {
            comments := comments + [WrongDefArg];
          }
        case NonStr =>
          // the default has no string value: the lookup fails and the handler adds the comment
          if WrongDefArg !in comments {
            comments := comments + [WrongDefArg];
          }
      }
    } else if node.IfStmt? && Conditionals !in comments {
      comments := comments + [Conditionals];
    } else if node.ModOp? && PercentFormatting !in comments {
      comments := comments + [PercentFormatting];
    } else if node.ReturnStmt? {
      hasReturn := true;
    } else if node.Call? {
      if node.attr == Some(FormatAttr) {
        usesFormat := true;
      }
    }
    // tested for every node, outside the chain above
    if node.FormattedValue? {
      usesFString := true;
    }
    next := WalkState(comments, hasMethod, usesDefArg, hasReturn, usesFormat, usesFString);
  }

  /** The single pass over the walked nodes. */
  method Walk(nodes: seq<Node>) returns (st: WalkState)
    ensures st == Summary(nodes)
  {
    st := Start;
    for i := 0 to |nodes|
      invariant st == Walked(nodes[..i])
    {
      assert nodes[..i + 1][..i] == nodes[..i];
      st := VisitNode(st, nodes[i]);
    }
    assert nodes[..|nodes|] == nodes;
    WalkedIsSummary(nodes);
  }

  /**
    Analyses one submission: the early exits for an unreadable or unparsable
    file, the walk, the checks after the walk and the status rule.
    `pylintStdout` is the style checker's output for the file.
   */
  method Analyze(source: Source, pylintStdout: string)
    returns (comments: seq<Feedback>, approve: bool, pylintComments: seq<string>, status: Status)
    ensures source.ReadFailed? ==>
      comments == [NoModule] && !approve && pylintComments == [] && status == DisapproveWithComment
    ensures source.ParseFailed? ==>
      comments == [MalformedCode] && !approve && pylintComments == [] && status == DisapproveWithComment
    ensures source.Parsed? ==>
      Analysis(comments, approve, pylintComments, status) == Assess(source.nodes, pylintStdout)
  {
    if source.ReadFailed? {
      return [NoModule], false, [], DisapproveWithComment;
    }
    if source.ParseFailed? {
      return [MalformedCode], false, [], DisapproveWithComment;
    }
    pylintComments := [];
    approve := true;
    var w := Walk(source.nodes);
    comments := w.comments;

    if !w.hasMethod {
      comments := comments + [NoMethod];
      approve := false;
    }
    if !w.usesDefArg {
      comments := comments + [NoDefArg];
    }
    if !w.hasReturn {
      comments := comments + [NoReturn];
      approve := false;
    }

    pylintComments := pylintComments + [pylintStdout];

    status := StatusOf(approve, comments, w.usesFormat, w.usesFString);
  }
}
