/**
 * `readTree`: the cursor-driven state machine that turns the token list into a tree.
 *
 * `Step` is the effect of one token and `RunFrom` the loop over the tokens, with the early
 * exit when `)` climbs past the root. `ReadTree` is the loop itself, proved to compute what
 * `RunFrom` describes; the lemmas state what that computation guarantees.
 */
module Parser {
  import opened Wrappers
  import opened Tokenizer
  import opened Arena

  /** A `,` while the cursor is at the root: the source dereferences `null` and throws. */
  datatype ParseError = NoParentForComma

  /** What a node-info token assigns to the cursor node. */
  datatype Info = Info(nodeLabel: string, branchLength: BranchLength)

  /** The parser's variables: the arena, `curnode`, `nodeId`, and the tokens warned about. */
  datatype State = State(nodes: seq<Node>, cursor: nat, nextId: nat, warnings: seq<string>)

  datatype Outcome = Continue(state: State) | Stop(state: State) | Crash

  /** Where the loop ended: the final state and how many tokens it consumed. */
  datatype Halt = Halt(state: State, used: nat)

  /** The value `readTree` returns (the root is node 0), with the tokens it warned about. */
  datatype Tree = Tree(nodes: seq<Node>, warnings: seq<string>)

  predicate IsInfoToken(token: string)
  {
    token != "" && token != ";" && token != "(" && token != "," && token != ")"
  }

  /** Every assigned id is below `bound`. */
  ghost predicate IdsBelow(nodes: seq<Node>, bound: nat)
  {
    forall j :: 0 <= j < |nodes| && nodes[j].id.Some? ==> nodes[j].id.value < bound
  }

  /** No two nodes carry the same id. */
  ghost predicate IdsDistinct(nodes: seq<Node>)
  {
    forall a, b :: 0 <= a < |nodes| && 0 <= b < |nodes| && a != b && nodes[a].id.Some? && nodes[b].id.Some? ==>
      nodes[a].id.value != nodes[b].id.value
  }

  ghost predicate Inv(st: State)
  {
    WellFormed(st.nodes) && st.cursor < |st.nodes| && IdsBelow(st.nodes, st.nextId) && IdsDistinct(st.nodes)
  }

  /** `root = {parent: null, children: []}`, `curnode = root`, `nodeId = 0`. */
  function Initial(): (st: State)
    ensures Inv(st) && |st.nodes| == 1 && st.nodes[0].parent == None && st.nextId == 0
  {
    State([NewNode(None)], 0, 0, [])
  }

  /**
   * `token.split(':')` and the three cases on its length. None is the warning case (two or
   * more colons), where label and branch length are left as they were.
   */
  function NodeInfo(token: string): (r: Option<Info>)
    ensures r.None? <==> Occurrences(token, ':') >= 2
    ensures Occurrences(token, ':') == 0 ==> r == Some(Info(token, Null))
    ensures forall c :: 0 <= c < |token| && token[c] == ':' && Occurrences(token, ':') == 1 ==>
              r == Some(Info(token[..c], Length(token[c + 1..])))
  {
    var pieces := Fields(token, ':');
    assert Occurrences(token, ':') == 0 ==> pieces == [token] by {
      if Occurrences(token, ':') == 0 { FieldsNoSeparator(token, ':'); }
    }
    assert forall c :: 0 <= c < |token| && token[c] == ':' && Occurrences(token, ':') == 1 ==>
             pieces == [token[..c], token[c + 1..]] by {
      forall c | 0 <= c < |token| && token[c] == ':' && Occurrences(token, ':') == 1 {
        FieldsOneSeparator(token, ':', c);
      }
    }
    if |pieces| == 1 then
      // Unreachable (see LeadingColonBranchDead); there nodeinfo[0] is the whole token.
      if |token| > 0 && token[0] == ':' then Some(Info("", Length(token)))
      else Some(Info(pieces[0], Null))
    else if |pieces| == 2 then Some(Info(pieces[0], Length(pieces[1])))
    else None
  }

  /** `(` at `p` or `,` below `p`: a new child of `p` becomes the cursor. */
  function Descend(st: State, p: nat): (r: State)
    requires Inv(st) && p < |st.nodes|
    ensures Inv(r)
  {
    var nodes := AddChild(st.nodes, p);
    assert IdsDistinct(nodes) by {
      assert forall j :: 0 <= j < |st.nodes| ==> nodes[j].id == st.nodes[j].id;
    }
    State(nodes, |st.nodes|, st.nextId, st.warnings)
  }

  /** A node-info token: label and branch length as NodeInfo says, then `id = nodeId++`. */
  function AssignInfo(st: State, token: string): (r: State)
    requires Inv(st)
    ensures Inv(r)
  {
    var node := st.nodes[st.cursor];
    var info := NodeInfo(token);
    var labelled := if info.Some? then node.(nodeLabel := Some(info.value.nodeLabel),
                                             branchLength := info.value.branchLength)
                    else node;
    var nodes := st.nodes[st.cursor := labelled.(id := Some(st.nextId))];
    ShapeKeepsWellFormed(st.nodes, nodes);
    State(nodes, st.cursor, st.nextId + 1, if info.None? then st.warnings + [token] else st.warnings)
  }

  /** One pass of the loop body of `readTree`. */
  function Step(st: State, token: string): (o: Outcome)
    requires Inv(st)
    ensures !o.Crash? ==> Inv(o.state)
  {
    if token == "" || token == ";" then Continue(st)
    else if token == "(" then Continue(Descend(st, st.cursor))
    else if token == "," then
      match st.nodes[st.cursor].parent
      case None => Crash
      case Some(p) =>
        assert LinkedToParent(st.nodes, st.cursor);
        Continue(Descend(st, p))
    else if token == ")" then
      match st.nodes[st.cursor].parent
      case None => Stop(st)
      case Some(p) =>
        assert LinkedToParent(st.nodes, st.cursor);
        Continue(st.(cursor := p))
    else Continue(AssignInfo(st, token))
  }

  /** The loop over `tokens[i..]`, leaving it early at a `)` that climbs past the root. */
  function RunFrom(st: State, tokens: seq<string>, i: nat): (r: Result<Halt, ParseError>)
    requires Inv(st) && i <= |tokens|
    ensures r.Success? ==> Inv(r.value.state) && i <= r.value.used <= |tokens|
    decreases |tokens| - i
  {
    if i == |tokens| then Success(Halt(st, i))
    else
      match Step(st, tokens[i])
      case Continue(next) => RunFrom(next, tokens, i + 1)
      case Stop(last) => Success(Halt(last, i + 1))
      case Crash => Failure(NoParentForComma)
  }

  /** The tokens `readTree` loops over. */
  function Tokens(text: string): seq<string>
  {
    Tokenize(StripSpaceTab(text))
  }

  /** What `readTree(text)` returns, or the error it throws. */
  function ReadTreeSpec(text: string): Result<Tree, ParseError>
  {
    match RunFrom(Initial(), Tokens(text), 0)
    case Success(h) => Success(Tree(h.state.nodes, h.state.warnings))
    case Failure(e) => Failure(e)
  }

  /** `readTree(text)` (public/js/phylo.js:15-79). */
  method ReadTree(text: string) returns (r: Result<Tree, ParseError>)
    ensures r == ReadTreeSpec(text)
    ensures r.Success? ==> WellFormed(r.value.nodes) && IdsDistinct(r.value.nodes)
  {
    var tokens := Tokenize(StripSpaceTab(text));
    var nodes := [NewNode(None)];
    var cursor: nat := 0;
    var nodeId: nat := 0;
    var warnings: seq<string> := [];
    var i: nat := 0;
    while i < |tokens|
      invariant 0 <= i <= |tokens|
      invariant Inv(State(nodes, cursor, nodeId, warnings))
      invariant RunFrom(Initial(), tokens, 0) == RunFrom(State(nodes, cursor, nodeId, warnings), tokens, i)
      decreases |tokens| - i
    {
      ghost var st := State(nodes, cursor, nodeId, warnings);
      var o := ApplyToken(nodes, cursor, nodeId, warnings, tokens[i]);
      match o
      case Crash =>
        r := Failure(NoParentForComma);
        return;
      case Stop(last) =>
        r := Success(Tree(last.nodes, last.warnings));
        return;
      case Continue(next) =>
        RunContinues(st, tokens, i, next);
        nodes, cursor, nodeId, warnings := next.nodes, next.cursor, next.nextId, next.warnings;
        i := i + 1;
    }
    r := Success(Tree(nodes, warnings));
  }

  /**
   * The loop body of `readTree` on one token (public/js/phylo.js:25-76): `(` and `,` add a node
   * and descend into it, `)` climbs (or ends the loop at the root), a `,` at the root throws,
   * and any other non-empty token sets label, branch length and id of the cursor node.
   */
  method ApplyToken(nodes: seq<Node>, cursor: nat, nodeId: nat, warnings: seq<string>, token: string)
    returns (o: Outcome)
    requires Inv(State(nodes, cursor, nodeId, warnings))
    ensures o == Step(State(nodes, cursor, nodeId, warnings), token)
  {
    var st := State(nodes, cursor, nodeId, warnings);
    if token == "" || token == ";" {
      return Continue(st);
    }
    if token == "(" {
      OpenStepIs(st);
      var child := |nodes|;
      return Continue(State(AddChild(nodes, cursor), child, nodeId, warnings));
    } else if token == "," {
      if nodes[cursor].parent == None {
        return Crash;
      }
      CommaStepIs(st, nodes[cursor].parent.value);
      var child := |nodes|;
      return Continue(State(AddChild(nodes, nodes[cursor].parent.value), child, nodeId, warnings));
    } else if token == ")" {
      if nodes[cursor].parent == None {
        return Stop(st);
      }
      CloseStepIs(st, nodes[cursor].parent.value);
      return Continue(State(nodes, nodes[cursor].parent.value, nodeId, warnings));
    } else {
      var node := nodes[cursor];
      var info := NodeInfo(token);
      var newWarnings := warnings;
      if info.Some? {
        node := node.(nodeLabel := Some(info.value.nodeLabel), branchLength := info.value.branchLength);
      } else {
        newWarnings := warnings + [token];
      }
      InfoStepIs(st, token);
      return Continue(State(nodes[cursor := node.(id := Some(nodeId))], cursor, nodeId + 1, newWarnings));
    }
  }

  /** `)` in state `st` below `p`: the cursor climbs to `p`. */
  lemma CloseStepIs(st: State, p: nat)
    requires Inv(st) && st.nodes[st.cursor].parent == Some(p)
    ensures Step(st, ")") == Continue(st.(cursor := p))
  {
  }

  /** A node-info token in state `st` is AssignInfo. */
  lemma InfoStepIs(st: State, token: string)
    requires Inv(st) && IsInfoToken(token)
    ensures Step(st, token) == Continue(AssignInfo(st, token))
  {
  }

  // ---------------------------------------------------------------------------------------
  // One token

  /** `""` and `";"` change nothing. */
  lemma StepIgnores(st: State)
    requires Inv(st)
    ensures Step(st, "") == Continue(st) && Step(st, ";") == Continue(st)
  {
  }

  /** `(` appends exactly one new child to the cursor and moves the cursor to it. */
  lemma StepOpen(st: State)
    requires Inv(st)
    ensures Step(st, "(").Continue?
    ensures var next := Step(st, "(").state;
      && |next.nodes| == |st.nodes| + 1 && next.cursor == |st.nodes|
      && next.nodes[st.cursor].children == st.nodes[st.cursor].children + [|st.nodes|]
      && next.nodes[|st.nodes|] == NewNode(Some(st.cursor))
      && (forall j :: 0 <= j < |st.nodes| && j != st.cursor ==> next.nodes[j] == st.nodes[j])
      && next.nextId == st.nextId
  {
  }

  /**
   * `,` climbs to the parent, appends one new child there and moves to it; at the root it fails
   * (the source dereferences `null`).
   */
  lemma StepComma(st: State)
    requires Inv(st)
    ensures st.nodes[st.cursor].parent.None? ==> Step(st, ",") == Crash
    ensures st.nodes[st.cursor].parent.Some? ==>
      var p := st.nodes[st.cursor].parent.value;
      && p < |st.nodes| && Step(st, ",").Continue?
      && var next := Step(st, ",").state;
      && |next.nodes| == |st.nodes| + 1 && next.cursor == |st.nodes|
      && next.nodes[p].children == st.nodes[p].children + [|st.nodes|]
      && next.nodes[|st.nodes|] == NewNode(Some(p))
      && (forall j :: 0 <= j < |st.nodes| && j != p ==> next.nodes[j] == st.nodes[j])
  {
    if st.nodes[st.cursor].parent.Some? {
      assert LinkedToParent(st.nodes, st.cursor);
    }
  }

  /** `)` moves the cursor to its parent, and ends the loop when there is none. */
  lemma StepClose(st: State)
    requires Inv(st)
    ensures st.nodes[st.cursor].parent.None? ==> Step(st, ")") == Stop(st)
    ensures st.nodes[st.cursor].parent.Some? ==>
      Step(st, ")") == Continue(st.(cursor := st.nodes[st.cursor].parent.value))
  {
  }

  /**
   * A node-info token gives the cursor node the next id, whether or not the token was
   * understood, and touches no other node.
   */
  lemma StepInfo(st: State, token: string)
    requires Inv(st) && IsInfoToken(token)
    ensures Step(st, token).Continue?
    ensures var next := Step(st, token).state;
      && SameShape(st.nodes, next.nodes) && next.cursor == st.cursor
      && next.nodes[st.cursor].id == Some(st.nextId) && next.nextId == st.nextId + 1
      && (forall j :: 0 <= j < |st.nodes| && j != st.cursor ==> next.nodes[j] == st.nodes[j])
      && (match NodeInfo(token)
          case Some(info) =>
            && next.nodes[st.cursor].nodeLabel == Some(info.nodeLabel)
            && next.nodes[st.cursor].branchLength == info.branchLength
            && next.warnings == st.warnings
          case None =>
            && next.nodes[st.cursor].nodeLabel == st.nodes[st.cursor].nodeLabel
            && next.nodes[st.cursor].branchLength == st.nodes[st.cursor].branchLength
            && next.warnings == st.warnings + [token])
  {
  }

  /** The `startsWith(':')` branch inside the one-piece case can never be taken. */
  lemma LeadingColonBranchDead(token: string)
    requires |Fields(token, ':')| == 1
    ensures !(|token| > 0 && token[0] == ':')
  {
    if |token| > 0 && token[0] == ':' {
      LeadingSeparatorSplits(token, ':');
    }
  }

  // ---------------------------------------------------------------------------------------
  // The whole loop

  predicate IsCreating(token: string)
  {
    token == "(" || token == ","
  }

  function CountCreating(tokens: seq<string>): nat
  {
    if tokens == [] then 0 else (if IsCreating(tokens[0]) then 1 else 0) + CountCreating(tokens[1..])
  }

  function CountInfo(tokens: seq<string>): nat
  {
    if tokens == [] then 0 else (if IsInfoToken(tokens[0]) then 1 else 0) + CountInfo(tokens[1..])
  }

  /** Node-info tokens with two or more colons: the ones warned about. */
  function CountMalformed(tokens: seq<string>): nat
  {
    if tokens == [] then 0
    else (if IsInfoToken(tokens[0]) && NodeInfo(tokens[0]).None? then 1 else 0) + CountMalformed(tokens[1..])
  }

  /** What a step that continues from `st` to `next` adds for `token`. */
  ghost predicate StepAdds(st: State, token: string, next: State)
  {
    && |next.nodes| == |st.nodes| + (if IsCreating(token) then 1 else 0)
    && next.nextId == st.nextId + (if IsInfoToken(token) then 1 else 0)
    && |next.warnings| == |st.warnings| + (if IsInfoToken(token) && NodeInfo(token).None? then 1 else 0)
  }

  /**
   * `r`, the outcome of the loop from `st` at token `i`, created one node per `(` and `,` it
   * consumed, handed out one id per node-info token and warned once per malformed one; it
   * stopped early only right after a `)`, and failed only if a `,` lies ahead.
   */
  ghost predicate CountsHold(st: State, tokens: seq<string>, i: nat, r: Result<Halt, ParseError>)
    requires i <= |tokens|
  {
    && (r.Success? ==>
          var h := r.value;
          && i <= h.used <= |tokens|
          && |h.state.nodes| == |st.nodes| + CountCreating(tokens[i..h.used])
          && h.state.nextId == st.nextId + CountInfo(tokens[i..h.used])
          && |h.state.warnings| == |st.warnings| + CountMalformed(tokens[i..h.used])
          && (h.used < |tokens| ==> 0 < h.used && tokens[h.used - 1] == ")"))
    && (r.Failure? ==> exists k :: i <= k < |tokens| && tokens[k] == ",")
  }

  /** The counts of the loop from any state: see CountsHold. */
  lemma {:induction false} RunFromCounts(st: State, tokens: seq<string>, i: nat)
    requires Inv(st) && i <= |tokens|
    ensures CountsHold(st, tokens, i, RunFrom(st, tokens, i))
    decreases |tokens| - i
  {
    if i == |tokens| {
      assert tokens[i..i] == [];
    } else {
      var token := tokens[i];
      StepCounts(st, token);
      var o := Step(st, token);
      if o.Continue? {
        var next := o.state;
        RunFromCounts(next, tokens, i + 1);
        RunContinues(st, tokens, i, next);
        CountsExtend(st, next, tokens, i, RunFrom(next, tokens, i + 1));
      } else if o.Stop? {
        RunHalts(st, tokens, i);
        CountsStop(st, tokens, i);
      } else {
        RunHalts(st, tokens, i);
        CountsCrash(st, tokens, i, RunFrom(st, tokens, i));
      }
    }
  }

  /** A step that does not continue ends the loop: with the state for `)`, with the error for `,`. */
  lemma RunHalts(st: State, tokens: seq<string>, i: nat)
    requires Inv(st) && i < |tokens| && !Step(st, tokens[i]).Continue?
    ensures Step(st, tokens[i]).Stop? ==> RunFrom(st, tokens, i) == Success(Halt(Step(st, tokens[i]).state, i + 1))
    ensures Step(st, tokens[i]).Crash? ==> RunFrom(st, tokens, i).Failure?
  {
  }

  /** Stopping right after the `)` at `i` adds its counts: none. */
  lemma CountsStop(st: State, tokens: seq<string>, i: nat)
    requires i < |tokens| && tokens[i] == ")"
    ensures CountsHold(st, tokens, i, Success(Halt(st, i + 1)))
  {
    CountsCons(tokens, i, i + 1);
  }

  /** A failure at the `,` at `i` is one with a `,` ahead. */
  lemma CountsCrash(st: State, tokens: seq<string>, i: nat, r: Result<Halt, ParseError>)
    requires i < |tokens| && tokens[i] == "," && r.Failure?
    ensures CountsHold(st, tokens, i, r)
  {
  }

  /** Counts that hold from the next state and token extend back over the token. */
  lemma CountsExtend(st: State, next: State, tokens: seq<string>, i: nat, r: Result<Halt, ParseError>)
    requires i < |tokens| && StepAdds(st, tokens[i], next) && CountsHold(next, tokens, i + 1, r)
    ensures CountsHold(st, tokens, i, r)
  {
    if r.Success? {
      CountsCons(tokens, i, r.value.used);
    }
  }

  /** The counts over `tokens[i..used]` are the first token's plus the counts of the rest. */
  lemma CountsCons(tokens: seq<string>, i: nat, used: nat)
    requires i < used <= |tokens|
    ensures CountCreating(tokens[i..used]) == (if IsCreating(tokens[i]) then 1 else 0) + CountCreating(tokens[i + 1..used])
    ensures CountInfo(tokens[i..used]) == (if IsInfoToken(tokens[i]) then 1 else 0) + CountInfo(tokens[i + 1..used])
    ensures CountMalformed(tokens[i..used]) ==
      (if IsInfoToken(tokens[i]) && NodeInfo(tokens[i]).None? then 1 else 0) + CountMalformed(tokens[i + 1..used])
  {
    assert tokens[i..used][0] == tokens[i] && tokens[i..used][1..] == tokens[i + 1..used];
  }

  /** A step that continues hands the rest of the loop to the next state. */
  lemma RunContinues(st: State, tokens: seq<string>, i: nat, next: State)
    requires Inv(st) && i < |tokens| && Step(st, tokens[i]) == Continue(next)
    ensures Inv(next) && RunFrom(st, tokens, i) == RunFrom(next, tokens, i + 1)
  {
  }

  /**
   * What one step adds: a node exactly for `(` and `,`, an id exactly for a node-info token, a
   * warning exactly for a malformed one; it throws only on `,` and stops only on `)`.
   */
  lemma StepCounts(st: State, token: string)
    requires Inv(st)
    ensures Step(st, token).Crash? ==> token == ","
    ensures Step(st, token).Stop? ==> token == ")" && Step(st, token).state == st
    ensures Step(st, token).Continue? ==> StepAdds(st, token, Step(st, token).state)
  {
  }

  /** The counts of RunFromCounts for a whole parse. */
  lemma ParseCounts(tokens: seq<string>)
    ensures RunFrom(Initial(), tokens, 0).Success? ==>
      var h := RunFrom(Initial(), tokens, 0).value;
      && h.used <= |tokens|
      && |h.state.nodes| == 1 + CountCreating(tokens[..h.used])
      && h.state.nextId == CountInfo(tokens[..h.used])
      && |h.state.warnings| == CountMalformed(tokens[..h.used])
      && (h.used < |tokens| ==> 0 < h.used && tokens[h.used - 1] == ")")
    ensures RunFrom(Initial(), tokens, 0).Failure? ==> exists k :: 0 <= k < |tokens| && tokens[k] == ","
  {
    RunFromCounts(Initial(), tokens, 0);
    assert tokens[0..] == tokens;
  }

  /**
   * The tree `readTree` returns: node 0 is the only parentless node, links agree, ids are
   * distinct and below the number of node-info tokens read, and there is one node more than
   * `(` and `,` tokens read.
   */
  lemma ReadTreeShape(text: string)
    ensures ReadTreeSpec(text).Success? ==>
      var t := ReadTreeSpec(text).value;
      var h := RunFrom(Initial(), Tokens(text), 0).value;
      && WellFormed(t.nodes) && IdsDistinct(t.nodes)
      && IdsBelow(t.nodes, CountInfo(Tokens(text)[..h.used]))
      && |t.nodes| == 1 + CountCreating(Tokens(text)[..h.used])
  {
    ParseCounts(Tokens(text));
  }

  // ---------------------------------------------------------------------------------------
  // Worked examples

  /** The tokens of `"(A:0.1,B:0.2);"`. */
  lemma ExampleTokens(text: string)
    requires text == "(A:0.1,B:0.2);"
    ensures Tokenize(text) == ["", "(", "A:0.1", ",", "B:0.2", ")", "", ";", ""]
  {
    assert text == "(" + "A:0.1" + "," + "B:0.2" + ");";
    TwoLeavesTokens("A:0.1", "B:0.2");
  }

  /** The tokens of `(a,b);` for delimiter-free `a` and `b`. */
  lemma TwoLeavesTokens(a: string, b: string)
    requires NoDelimiter(a) && NoDelimiter(b)
    ensures Tokenize("(" + a + "," + b + ");") == ["", "(", a, ",", b, ")", "", ";", ""]
  {
    var r3 := ";";
    var r2 := b + ")" + r3;
    var r1 := a + "," + r2;
    assert "(" + a + "," + b + ");" == "" + "(" + r1;
    assert r3 == "" + ";" + "";
    TokenizeWord("", ';', "");
    TokenizeWord(b, ')', r3);
    TokenizeWord(a, ',', r2);
    TokenizeWord("", '(', r1);
  }

  /** The states `"(A:0.1,B:0.2);"` goes through, after each token that changes the state. */
  function TwoTipsTrace(k: nat): State
  {
    var root1 := Node(None, [1], None, Undefined, None);
    var root2 := Node(None, [1, 2], None, Undefined, None);
    var a := Node(Some(0), [], Some("A"), Length("0.1"), Some(0));
    var b := Node(Some(0), [], Some("B"), Length("0.2"), Some(1));
    match k
    case 0 => Initial()
    case 1 => State([root1, NewNode(Some(0))], 1, 0, [])
    case 2 => State([root1, a], 1, 1, [])
    case 3 => State([root2, a, NewNode(Some(0))], 2, 1, [])
    case 4 => State([root2, a, b], 2, 2, [])
    case _ => State([root2, a, b], 0, 2, [])
  }

  // Each state of the trace satisfies the invariant, because Step keeps it.
  lemma TwoTipsInv1() ensures Inv(TwoTipsTrace(1)) { TwoTipsOpen(); }
  lemma TwoTipsInv2() ensures Inv(TwoTipsTrace(2)) { TwoTipsLabelA(); }
  lemma TwoTipsInv3() ensures Inv(TwoTipsTrace(3)) { TwoTipsComma(); }
  lemma TwoTipsInv4() ensures Inv(TwoTipsTrace(4)) { TwoTipsLabelB(); }
  lemma TwoTipsInv5() ensures Inv(TwoTipsTrace(5)) { TwoTipsClose(); }

  /** `(` in state `st`: a new child of the cursor, which becomes the cursor. */
  lemma OpenStepIs(st: State)
    requires Inv(st)
    ensures Step(st, "(") == Continue(State(AddChild(st.nodes, st.cursor), |st.nodes|, st.nextId, st.warnings))
  {
  }

  /** `,` in state `st` below `p`: a new child of `p`, which becomes the cursor. */
  lemma CommaStepIs(st: State, p: nat)
    requires Inv(st) && st.nodes[st.cursor].parent == Some(p)
    ensures p < |st.nodes|
    ensures Step(st, ",") == Continue(State(AddChild(st.nodes, p), |st.nodes|, st.nextId, st.warnings))
  {
    assert LinkedToParent(st.nodes, st.cursor);
  }

  /** AddChild pinned down entry by entry. */
  lemma AddChildIs(nodes: seq<Node>, p: nat, r: seq<Node>)
    requires WellFormed(nodes) && p < |nodes|
    requires |r| == |nodes| + 1 && r[|nodes|] == NewNode(Some(p))
    requires r[p] == nodes[p].(children := nodes[p].children + [|nodes|])
    requires forall j :: 0 <= j < |nodes| && j != p ==> r[j] == nodes[j]
    ensures AddChild(nodes, p) == r
  {
    var n := AddChild(nodes, p);
    assert forall j :: 0 <= j < |r| ==> n[j] == r[j];
  }

  lemma TwoTipsOpen()
    ensures Inv(TwoTipsTrace(0)) && Step(TwoTipsTrace(0), "(") == Continue(TwoTipsTrace(1))
  {
    OpenStepIs(TwoTipsTrace(0));
    assert [] + [1] == [1];
    AddChildIs(TwoTipsTrace(0).nodes, 0, TwoTipsTrace(1).nodes);
  }

  /** A one-letter label, a colon and a colon-free length text: label and length as written. */
  lemma LabelledInfo(letter: char, len: string)
    requires letter != ':' && Occurrences(len, ':') == 0
    ensures NodeInfo([letter, ':'] + len) == Some(Info([letter], Length(len)))
  {
    var s1 := [':'] + len;
    var s0 := [letter] + s1;
    assert s0 == [letter, ':'] + len;
    FieldsNoSeparator(len, ':');
    assert s1[1..] == len;
    assert Fields(s1, ':') == [""] + [len];
    assert s0[1..] == s1;
    var rest := Fields(s1, ':');
    assert [letter] + rest[0] == [letter] && rest[1..] == [len];
    assert Fields(s0, ':') == [[letter]] + [len];
  }

  /** The state once the cursor node has taken `info` and the next id. */
  function Labelled(st: State, info: Info): State
    requires st.cursor < |st.nodes|
  {
    var node := st.nodes[st.cursor];
    st.(nodes := st.nodes[st.cursor := node.(nodeLabel := Some(info.nodeLabel), branchLength := info.branchLength,
                                             id := Some(st.nextId))],
        nextId := st.nextId + 1)
  }

  /** A node-info token that NodeInfo understands: the cursor gets its label, length and id. */
  lemma LabelStep(st: State, token: string, info: Info)
    requires Inv(st) && IsInfoToken(token) && NodeInfo(token) == Some(info)
    ensures Step(st, token) == Continue(Labelled(st, info))
  {
  }

  lemma TwoTipsLabelledA()
    ensures Labelled(TwoTipsTrace(1), Info("A", Length("0.1"))) == TwoTipsTrace(2)
  {
    var n := TwoTipsTrace(1).nodes;
    assert n[1 := n[1].(nodeLabel := Some("A"), branchLength := Length("0.1"), id := Some(0))] == TwoTipsTrace(2).nodes;
  }

  lemma TwoTipsLabelA()
    ensures Inv(TwoTipsTrace(1)) && Step(TwoTipsTrace(1), "A:0.1") == Continue(TwoTipsTrace(2))
  {
    TwoTipsInv1();
    assert "A:0.1" == ['A', ':'] + "0.1";
    LabelledInfo('A', "0.1");
    LabelStep(TwoTipsTrace(1), "A:0.1", Info("A", Length("0.1")));
    TwoTipsLabelledA();
  }

  lemma TwoTipsComma()
    ensures Inv(TwoTipsTrace(2)) && Step(TwoTipsTrace(2), ",") == Continue(TwoTipsTrace(3))
  {
    TwoTipsInv2();
    CommaStepIs(TwoTipsTrace(2), 0);
    assert [1] + [2] == [1, 2];
    AddChildIs(TwoTipsTrace(2).nodes, 0, TwoTipsTrace(3).nodes);
  }

  lemma TwoTipsLabelledB()
    ensures Labelled(TwoTipsTrace(3), Info("B", Length("0.2"))) == TwoTipsTrace(4)
  {
    var n := TwoTipsTrace(3).nodes;
    assert n[2 := n[2].(nodeLabel := Some("B"), branchLength := Length("0.2"), id := Some(1))] == TwoTipsTrace(4).nodes;
  }

  lemma TwoTipsLabelB()
    ensures Inv(TwoTipsTrace(3)) && Step(TwoTipsTrace(3), "B:0.2") == Continue(TwoTipsTrace(4))
  {
    TwoTipsInv3();
    assert "B:0.2" == ['B', ':'] + "0.2";
    LabelledInfo('B', "0.2");
    LabelStep(TwoTipsTrace(3), "B:0.2", Info("B", Length("0.2")));
    TwoTipsLabelledB();
  }

  lemma TwoTipsClose()
    ensures Inv(TwoTipsTrace(4)) && Step(TwoTipsTrace(4), ")") == Continue(TwoTipsTrace(5))
  {
    TwoTipsInv4();
    var s4 := TwoTipsTrace(4);
    assert s4.nodes[2].parent == Some(0);
    StepClose(s4);
    assert TwoTipsTrace(5) == s4.(cursor := 0);
  }

  lemma TwoTipsRunTail(tokens: seq<string>)
    requires |tokens| == 9 && tokens[5] == ")" && tokens[6] == "" && tokens[7] == ";" && tokens[8] == ""
    ensures Inv(TwoTipsTrace(4)) && RunFrom(TwoTipsTrace(4), tokens, 5) == Success(Halt(TwoTipsTrace(5), 9))
  {
    TwoTipsInv4(); TwoTipsInv5();
    TwoTipsClose();
    var s5 := TwoTipsTrace(5);
    StepIgnores(s5);
    assert RunFrom(s5, tokens, 8) == Success(Halt(s5, 9));
    assert RunFrom(s5, tokens, 7) == RunFrom(s5, tokens, 8);
    assert RunFrom(s5, tokens, 6) == RunFrom(s5, tokens, 7);
  }

  lemma TwoTipsRun0(tokens: seq<string>)
    requires |tokens| > 2 && tokens[0] == "" && tokens[1] == "("
    ensures Inv(TwoTipsTrace(1)) && RunFrom(Initial(), tokens, 0) == RunFrom(TwoTipsTrace(1), tokens, 2)
  {
    TwoTipsInv1();
    TwoTipsOpen();
    StepIgnores(Initial());
    RunContinues(Initial(), tokens, 0, Initial());
    RunContinues(TwoTipsTrace(0), tokens, 1, TwoTipsTrace(1));
  }

  lemma TwoTipsRun1(tokens: seq<string>)
    requires |tokens| > 3 && tokens[2] == "A:0.1"
    ensures Inv(TwoTipsTrace(1)) && Inv(TwoTipsTrace(2))
    ensures RunFrom(TwoTipsTrace(1), tokens, 2) == RunFrom(TwoTipsTrace(2), tokens, 3)
  {
    TwoTipsInv1(); TwoTipsInv2();
    TwoTipsLabelA();
    RunContinues(TwoTipsTrace(1), tokens, 2, TwoTipsTrace(2));
  }

  lemma TwoTipsRun2(tokens: seq<string>)
    requires |tokens| > 4 && tokens[3] == ","
    ensures Inv(TwoTipsTrace(2)) && Inv(TwoTipsTrace(3))
    ensures RunFrom(TwoTipsTrace(2), tokens, 3) == RunFrom(TwoTipsTrace(3), tokens, 4)
  {
    TwoTipsInv2(); TwoTipsInv3();
    TwoTipsComma();
    RunContinues(TwoTipsTrace(2), tokens, 3, TwoTipsTrace(3));
  }

  lemma TwoTipsRun3(tokens: seq<string>)
    requires |tokens| > 5 && tokens[4] == "B:0.2"
    ensures Inv(TwoTipsTrace(3)) && Inv(TwoTipsTrace(4))
    ensures RunFrom(TwoTipsTrace(3), tokens, 4) == RunFrom(TwoTipsTrace(4), tokens, 5)
  {
    TwoTipsInv3(); TwoTipsInv4();
    TwoTipsLabelB();
    RunContinues(TwoTipsTrace(3), tokens, 4, TwoTipsTrace(4));
  }

  /** The tokens of the example, one by one. */
  ghost predicate TwoTipsTokens(tokens: seq<string>)
  {
    && |tokens| == 9 && tokens[0] == "" && tokens[1] == "(" && tokens[2] == "A:0.1" && tokens[3] == ","
    && tokens[4] == "B:0.2" && tokens[5] == ")" && tokens[6] == "" && tokens[7] == ";" && tokens[8] == ""
  }

  lemma TwoTipsTokensAt(tokens: seq<string>)
    requires tokens == ["", "(", "A:0.1", ",", "B:0.2", ")", "", ";", ""]
    ensures TwoTipsTokens(tokens)
  {
  }

  lemma TwoTipsRun(tokens: seq<string>)
    requires TwoTipsTokens(tokens)
    ensures RunFrom(Initial(), tokens, 0) == Success(Halt(TwoTipsTrace(5), 9))
  {
    TwoTipsRun0(tokens);
    TwoTipsRun1(tokens);
    TwoTipsRun2(tokens);
    TwoTipsRun3(tokens);
    TwoTipsRunTail(tokens);
  }

  /**
   * `"(A:0.1,B:0.2);"`: two tips, A with id 0 and B with id 1, below a root that gets no id;
   * the `)` returns to the root, and the `;` after it changes nothing.
   */
  lemma ExampleTwoTips(text: string)
    requires text == "(A:0.1,B:0.2);"
    ensures ReadTreeSpec(text) == Success(Tree([
      Node(None, [1, 2], None, Undefined, None),
      Node(Some(0), [], Some("A"), Length("0.1"), Some(0)),
      Node(Some(0), [], Some("B"), Length("0.2"), Some(1))], []))
  {
    StripWithoutSpaces(text);
    ExampleTokens(text);
    TwoTipsTokensAt(Tokens(text));
    TwoTipsRun(Tokens(text));
  }

  /** The tokens of `"A;B"`. */
  lemma SameNodeTokens(text: string)
    requires text == "A;B"
    ensures Tokens(text) == ["A", ";", "B"]
  {
    StripWithoutSpaces(text);
    assert text == "A" + ";" + "B";
    TokenizeWord("A", ';', "B");
    TokenizeNoDelimiter("B");
  }

  /** `"A"` at the root: label A, no branch length, id 0. */
  lemma SameNodeStepA()
    ensures Step(Initial(), "A") == Continue(State([Node(None, [], Some("A"), Null, Some(0))], 0, 1, []))
  {
    assert Occurrences("A", ':') == 0;
    LabelStep(Initial(), "A", Info("A", Null));
    assert Labelled(Initial(), Info("A", Null)).nodes == [Node(None, [], Some("A"), Null, Some(0))];
  }

  /** `"B"` at the same root: the label is overwritten and the id becomes 1. */
  lemma SameNodeStepB(s1: State)
    requires s1 == State([Node(None, [], Some("A"), Null, Some(0))], 0, 1, [])
    ensures Inv(s1) && Step(s1, "B") == Continue(State([Node(None, [], Some("B"), Null, Some(1))], 0, 2, []))
  {
    SameNodeStepA();
    assert Occurrences("B", ':') == 0;
    LabelStep(s1, "B", Info("B", Null));
    assert Labelled(s1, Info("B", Null)).nodes == [Node(None, [], Some("B"), Null, Some(1))];
  }

  lemma SameNodeRun(tokens: seq<string>)
    requires tokens == ["A", ";", "B"]
    ensures RunFrom(Initial(), tokens, 0) == Success(Halt(State([Node(None, [], Some("B"), Null, Some(1))], 0, 2, []), 3))
  {
    var s1 := State([Node(None, [], Some("A"), Null, Some(0))], 0, 1, []);
    var s2 := State([Node(None, [], Some("B"), Null, Some(1))], 0, 2, []);
    SameNodeStepA();
    SameNodeStepB(s1);
    StepIgnores(s1);
    RunContinues(Initial(), tokens, 0, s1);
    RunContinues(s1, tokens, 1, s1);
    RunContinues(s1, tokens, 2, s2);
  }

  /**
   * `"A;B"`: the `;` does not move the cursor, so both info tokens land on the root; the
   * second overwrites the first, and the root ends with id 1 while id 0 is held by no node.
   */
  lemma ExampleSameNode(text: string)
    requires text == "A;B"
    ensures ReadTreeSpec(text) == Success(Tree([Node(None, [], Some("B"), Null, Some(1))], []))
  {
    SameNodeTokens(text);
    SameNodeRun(Tokens(text));
  }
}
