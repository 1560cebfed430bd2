/**
 * autodocstring.py: `generate_docstring`, which asks the oracle for text and
 * extracts a docstring with bounded retry, and the per-node loop of `main`,
 * which patches every function and async function of the walked tree and
 * rewrites the file after each patch.
 */
module Autodocstring {
  import opened Wrappers
  import opened Extraction
  import opened SourceModel
  import opened Generation

  /** The default of the `tries` parameter of `generate_docstring`. */
  const DefaultTries: int := 2

  /**
   * Why `generate_docstring` raised: out of tries, the oracle call itself
   * raised, or a message read a name that is not defined where it is used.
   */
  datatype Failure = Exhausted | OracleRaised | UndefinedName

  /** The outcome of `generate_docstring` and the oracle's call counter afterwards. */
  datatype Attempt = Attempt(outcome: Result<string, Failure>, calls: nat)

  function Max0(n: int): nat {
    if n > 0 then n else 0
  }

  /** The response `resp` is text from which the lenient rule extracts `doc`. */
  predicate Answered(resp: Response, doc: string) {
    resp.Text? && ExtractLenient(resp.text) == Some(doc)
  }

  /**
   * What `generate_docstring(code, model, tries)` does when the oracle has
   * already been called `calls` times.  Each call without an opening marker
   * uses up one try and leads to a fresh call; the first extraction returns at
   * once; an oracle exception propagates.
   */
  function Obtain(oracle: Oracle, code: string, calls: nat, tries: int): (r: Attempt)
    ensures calls <= r.calls <= calls + Max0(tries)
    decreases tries
  {
    if tries <= 0 then
      Attempt(Failure(Exhausted), calls)
    else
      match oracle(calls, code)
      case Raised => Attempt(Failure(OracleRaised), calls + 1)
      case Text(raw) =>
        match ExtractLenient(raw)
        case Some(doc) => Attempt(Success(doc), calls + 1)
        case None => Obtain(oracle, code, calls + 1, tries - 1)
  }

  /**
   * The retry policy: the oracle is called at most `tries` times; every call
   * before the last one answered without a marker; a success is the
   * extraction from the last answer, so nothing is asked after the first
   * success; an oracle exception ends the attempt at the call that raised;
   * and the tries are exhausted exactly when `tries` calls in a row answered
   * without a marker.
   */
  lemma {:induction false} ObtainSpec(oracle: Oracle, code: string, calls: nat, tries: int)
    ensures var r := Obtain(oracle, code, calls, tries);
      && (forall k :: calls <= k < r.calls - 1 ==> Unmarked(oracle(k, code)))
      && (r.outcome.Success? ==> calls < r.calls && Answered(oracle(r.calls - 1, code), r.outcome.value))
      && (r.outcome == Failure(OracleRaised) ==> calls < r.calls && oracle(r.calls - 1, code).Raised?)
      && (r.outcome == Failure(Exhausted) <==>
            r.calls == calls + Max0(tries) && forall k :: calls <= k < r.calls ==> Unmarked(oracle(k, code)))
    decreases tries
  {
    if tries > 0 && oracle(calls, code).Text? {
      LenientSpec(oracle(calls, code).text);
      if ExtractLenient(oracle(calls, code).text).None? {
        ObtainSpec(oracle, code, calls + 1, tries - 1);
      }
    }
  }

  /**
   * `generate_docstring` as written: the messages on lines 78 and 81 read
   * `node`, which is a local of `main` and not visible here, so formatting
   * either message raises before anything else happens.  An answer without a
   * marker therefore ends the attempt at once instead of leading to a retry.
   */
  function ObtainAsWritten(oracle: Oracle, code: string, calls: nat, tries: int): (r: Attempt)
    ensures calls <= r.calls <= calls + 1
  {
    if tries <= 0 then
      Attempt(Failure(UndefinedName), calls)
    else
      match oracle(calls, code)
      case Raised => Attempt(Failure(OracleRaised), calls + 1)
      case Text(raw) =>
        match ExtractLenient(raw)
        case Some(doc) => Attempt(Success(doc), calls + 1)
        case None => Attempt(Failure(UndefinedName), calls + 1)
  }

  /**
   * The two differ exactly on the retry: with a first answer without a marker
   * and a second one with a marker, the code as written gives up after one
   * call, while the intended retry succeeds with the second answer.
   */
  lemma RetryLostAsWritten(oracle: Oracle, code: string, calls: nat)
    requires Unmarked(oracle(calls, code)) && Marked(oracle(calls + 1, code))
    ensures ObtainAsWritten(oracle, code, calls, DefaultTries) == Attempt(Failure(UndefinedName), calls + 1)
    ensures Obtain(oracle, code, calls, DefaultTries).outcome.Success?
    ensures Obtain(oracle, code, calls, DefaultTries).calls == calls + 2
  {
    LenientSpec(oracle(calls, code).text);
    ObtainFirstTry(oracle, code, calls + 1);
  }

  /** Both versions agree whenever the first answer has a marker or the oracle raises. */
  lemma AsWrittenAgreesOnFirstAnswer(oracle: Oracle, code: string, calls: nat, tries: int)
    requires tries > 0 && !Unmarked(oracle(calls, code))
    ensures ObtainAsWritten(oracle, code, calls, tries) == Obtain(oracle, code, calls, tries)
  {
    if oracle(calls, code).Text? {
      LenientSpec(oracle(calls, code).text);
    }
  }

  /**
   * Some call among the next `tries` answers with a marker, and every call
   * before it answered with text and no marker (so none raised).
   */
  ghost predicate MarkedInTime(oracle: Oracle, code: string, calls: nat, tries: int) {
    exists k :: calls <= k < calls + tries && Marked(oracle(k, code))
      && forall m :: calls <= m < k ==> Unmarked(oracle(m, code))
  }

  /** Generation succeeds exactly when a marked answer comes in time, before any raise. */
  lemma {:induction false} ObtainSucceedsIff(oracle: Oracle, code: string, calls: nat, tries: int)
    ensures Obtain(oracle, code, calls, tries).outcome.Success? <==> MarkedInTime(oracle, code, calls, tries)
    decreases tries
  {
    if tries > 0 {
      var resp := oracle(calls, code);
      assert !Marked(resp) && !Unmarked(resp) ==> resp.Raised?;
      if Unmarked(resp) {
        LenientSpec(resp.text);
        ObtainSucceedsIff(oracle, code, calls + 1, tries - 1);
        if MarkedInTime(oracle, code, calls + 1, tries - 1) {
          var k :| calls + 1 <= k < calls + tries && Marked(oracle(k, code))
            && forall m :: calls + 1 <= m < k ==> Unmarked(oracle(m, code));
          assert forall m :: calls <= m < k ==> Unmarked(oracle(m, code));
        }
        if MarkedInTime(oracle, code, calls, tries) {
          var k :| calls <= k < calls + tries && Marked(oracle(k, code))
            && forall m :: calls <= m < k ==> Unmarked(oracle(m, code));
          assert k != calls;
          assert forall m :: calls + 1 <= m < k ==> Unmarked(oracle(m, code));
        }
      } else if Marked(resp) {
        LenientSpec(resp.text);
      }
    }
  }

  /**
   * `generate_docstring`: the `while tries > 0` loop.  The response is
   * searched for the opening marker and then for the closing one; with no
   * closing marker the end is the length of the response and a marker is
   * appended to it, which does not change the slice returned.
   */
  method GenerateDocstring(code: string, oracle: Oracle, calls0: nat, tries0: int)
    returns (r: Result<string, Failure>, calls: nat)
    ensures Obtain(oracle, code, calls0, tries0) == Attempt(r, calls)
  {
    var tries := tries0;
    calls := calls0;
    while tries > 0
      invariant calls >= calls0
      invariant Obtain(oracle, code, calls0, tries0) == Obtain(oracle, code, calls, tries)
      decreases tries
    {
      var response := oracle(calls, code);
      calls := calls + 1;
      if response.Raised? {
        return Failure(OracleRaised), calls;
      }
      var raw := response.text;
      ghost var text := raw;
      var opening := Find(raw, 0);
      if opening != -1 {
        var start := opening + |Marker|;
        var end := Find(raw, start);
        if end == -1 {
          end := |raw|;
          AppendMarkerKeepsSlice(raw, start);
          raw := raw + Marker;
        }
        assert ExtractLenient(text) == Some(raw[start..end]);
        return Success(raw[start..end]), calls;
      } else {
        tries := tries - 1;
      }
    }
    return Failure(Exhausted), calls;
  }

  /** Only function and async-function nodes are documented. */
  predicate IsFunctionNode(kind: Kind) {
    kind == FunctionDef || kind == AsyncFunctionDef
  }

  /**
   * One iteration of the loop of `main`, on node `i`.  A node that is not a
   * function is passed over; a failed generation skips the node; a success
   * prepends the docstring and writes the whole tree.
   */
  function Visit(infos: seq<NodeInfo>, oracle: Oracle, r: Run, i: nat): (r': Run)
    requires i < |infos| == |r.bodies|
    ensures |r'.bodies| == |infos| && r.calls <= r'.calls
    ensures r'.bodies == r.bodies[i := r'.bodies[i]]
    ensures r'.writes == (if r'.bodies == r.bodies then r.writes else r.writes + [r'.bodies])
  {
    if !IsFunctionNode(infos[i].kind) then
      r
    else
      var a := Obtain(oracle, infos[i].code, r.calls, DefaultTries);
      match a.outcome
      case Success(doc) =>
        var bodies := r.bodies[i := Prepend(doc, r.bodies[i])];
        assert bodies[i] != r.bodies[i];
        Run(bodies, a.calls, r.writes + [bodies])
      case Failure(_) =>
        r.(calls := a.calls)
  }

  /**
   * One iteration either leaves the node's body alone, or the node is a
   * function or async function and its body gained one docstring in front.
   */
  lemma VisitOutcome(infos: seq<NodeInfo>, oracle: Oracle, r: Run, i: nat)
    requires i < |infos| == |r.bodies|
    ensures var b := Visit(infos, oracle, r, i).bodies[i];
            b == r.bodies[i] || (IsFunctionNode(infos[i].kind) && Documented(b, r.bodies[i]))
  {
    var a := Obtain(oracle, infos[i].code, r.calls, DefaultTries);
    ObtainSpec(oracle, infos[i].code, r.calls, DefaultTries);
    if IsFunctionNode(infos[i].kind) && a.outcome.Success? {
      LenientSpec(oracle(a.calls - 1, infos[i].code).text);
    }
  }

  /**
   * One iteration changes the tree exactly when the node is a function or
   * async function and a marked answer about it comes within the default
   * number of tries, before any raise.
   */
  lemma VisitChangesIff(infos: seq<NodeInfo>, oracle: Oracle, r: Run, i: nat)
    requires i < |infos| == |r.bodies|
    ensures Visit(infos, oracle, r, i).bodies != r.bodies <==>
            IsFunctionNode(infos[i].kind) && MarkedInTime(oracle, infos[i].code, r.calls, DefaultTries)
  {
    if IsFunctionNode(infos[i].kind) {
      ObtainSucceedsIff(oracle, infos[i].code, r.calls, DefaultTries);
      VisitFunction(infos, oracle, r, i);
    }
  }

  /** The state after the loop of `main` has visited the first `n` nodes. */
  function Drive(infos: seq<NodeInfo>, oracle: Oracle, init: Run, n: nat): (r: Run)
    requires n <= |infos| == |init.bodies|
    ensures |r.bodies| == |infos| && init.calls <= r.calls
    ensures r.bodies[n..] == init.bodies[n..]
    decreases n
  {
    if n == 0 then init else Visit(infos, oracle, Drive(infos, oracle, init, n - 1), n - 1)
  }

  /** The loop of `main` visits the nodes one after the other. */
  lemma DriveStep(infos: seq<NodeInfo>, oracle: Oracle, init: Run, i: nat)
    requires i < |infos| == |init.bodies|
    ensures Drive(infos, oracle, init, i + 1) == Visit(infos, oracle, Drive(infos, oracle, init, i), i)
  {
  }

  /** Once node `j` has been visited, no later iteration touches its body. */
  lemma {:induction false} DriveSettled(infos: seq<NodeInfo>, oracle: Oracle, init: Run, j: nat, n: nat)
    requires j < n <= |infos| == |init.bodies|
    ensures Drive(infos, oracle, init, n).bodies[j] == Drive(infos, oracle, init, j + 1).bodies[j]
    decreases n
  {
    if n > j + 1 {
      DriveSettled(infos, oracle, init, j, n - 1);
      DriveStep(infos, oracle, init, n - 1);
      var before, after := Drive(infos, oracle, init, n - 1), Drive(infos, oracle, init, n);
      assert after.bodies == before.bodies[n - 1 := after.bodies[n - 1]];
      assert after.bodies[j] == before.bodies[j];
    }
  }

  /**
   * After the loop, every node either kept its body, or is a function or
   * async function whose body gained exactly one docstring in front.
   */
  lemma DriveOutcome(infos: seq<NodeInfo>, oracle: Oracle, init: Run, j: nat)
    requires j < |infos| == |init.bodies|
    ensures var b := Drive(infos, oracle, init, |infos|).bodies[j];
            b == init.bodies[j] || (IsFunctionNode(infos[j].kind) && Documented(b, init.bodies[j]))
  {
    DriveSettled(infos, oracle, init, j, |infos|);
    VisitOutcome(infos, oracle, Drive(infos, oracle, init, j), j);
  }

  /** A function for which the oracle never gives a marker keeps its body, and the loop goes on. */
  lemma NeverMarkedNodeUnchanged(infos: seq<NodeInfo>, oracle: Oracle, init: Run, j: nat)
    requires j < |infos| == |init.bodies|
    requires NeverMarked(oracle, infos[j].code)
    ensures Drive(infos, oracle, init, |infos|).bodies[j] == init.bodies[j]
  {
    DriveSettled(infos, oracle, init, j, |infos|);
    var before := Drive(infos, oracle, init, j);
    ObtainNeverMarked(oracle, infos[j].code, before.calls, DefaultTries);
  }

  /**
   * A function whose every answer has a marker is documented, whatever the
   * oracle does for the other nodes: the loop goes on past the nodes it skips.
   */
  lemma MarkedNodeDocumented(infos: seq<NodeInfo>, oracle: Oracle, init: Run, j: nat)
    requires j < |infos| == |init.bodies|
    requires IsFunctionNode(infos[j].kind)
    requires forall k :: Marked(oracle(k, infos[j].code))
    ensures Documented(Drive(infos, oracle, init, |infos|).bodies[j], init.bodies[j])
  {
    DriveSettled(infos, oracle, init, j, |infos|);
    DriveStep(infos, oracle, init, j);
    var before := Drive(infos, oracle, init, j);
    assert before.bodies[j] == init.bodies[j] by {
      assert before.bodies[j..] == init.bodies[j..];
    }
    ObtainFirstTry(oracle, infos[j].code, before.calls);
    VisitFunction(infos, oracle, before, j);
    VisitOutcome(infos, oracle, before, j);
    var after := Visit(infos, oracle, before, j);
    assert |after.bodies[j]| == |before.bodies[j]| + 1;
  }

  /** When no answer about `code` has a marker, generation never succeeds. */
  lemma {:induction false} ObtainNeverMarked(oracle: Oracle, code: string, calls: nat, tries: int)
    requires NeverMarked(oracle, code)
    ensures !Obtain(oracle, code, calls, tries).outcome.Success?
    decreases tries
  {
    if tries > 0 && oracle(calls, code).Text? {
      LenientSpec(oracle(calls, code).text);
      if ExtractLenient(oracle(calls, code).text).None? {
        ObtainNeverMarked(oracle, code, calls + 1, tries - 1);
      }
    }
  }

  /** The number of function and async-function nodes in `infos`. */
  function FunctionCount(infos: seq<NodeInfo>): nat {
    if infos == [] then 0
    else FunctionCount(infos[..|infos| - 1]) + (if IsFunctionNode(infos[|infos| - 1].kind) then 1 else 0)
  }

  /** With an oracle whose every answer has a marker, the first try always succeeds. */
  lemma ObtainFirstTry(oracle: Oracle, code: string, calls: nat)
    requires Marked(oracle(calls, code))
    ensures Obtain(oracle, code, calls, DefaultTries).outcome.Success?
    ensures Obtain(oracle, code, calls, DefaultTries).calls == calls + 1
  {
    LenientSpec(oracle(calls, code).text);
  }

  /**
   * With an oracle that always answers with a marker, one run documents every
   * function exactly once, leaves every other node alone, and calls the oracle
   * once per function.
   */
  lemma {:induction false} AllDocumented(infos: seq<NodeInfo>, oracle: Oracle, init: Run, n: nat)
    requires n <= |infos| == |init.bodies|
    requires AlwaysMarked(oracle)
    ensures var r := Drive(infos, oracle, init, n);
            && r.calls == init.calls + FunctionCount(infos[..n])
            && forall j :: 0 <= j < n ==>
                 if IsFunctionNode(infos[j].kind) then Documented(r.bodies[j], init.bodies[j])
                 else r.bodies[j] == init.bodies[j]
    decreases n
  {
    if n > 0 {
      AllDocumented(infos, oracle, init, n - 1);
      var before := Drive(infos, oracle, init, n - 1);
      ObtainFirstTry(oracle, infos[n - 1].code, before.calls);
      VisitOutcome(infos, oracle, before, n - 1);
      assert infos[..n][..n - 1] == infos[..n - 1];
    }
  }

  /**
   * Running the tool twice with such an oracle puts two docstrings in front of
   * every function: patching is not idempotent.
   */
  lemma RunTwiceDoubles(infos: seq<NodeInfo>, oracle: Oracle, init: Run, j: nat)
    requires j < |infos| == |init.bodies|
    requires AlwaysMarked(oracle)
    requires IsFunctionNode(infos[j].kind)
    ensures var first := Drive(infos, oracle, init, |infos|);
            var second := Drive(infos, oracle, Run(first.bodies, first.calls, []), |infos|);
            |second.bodies[j]| == |init.bodies[j]| + 2 && second.bodies[j][2..] == init.bodies[j]
            && second.bodies[j][0].ConstantExpr? && second.bodies[j][1].ConstantExpr?
  {
    var first := Drive(infos, oracle, init, |infos|);
    AllDocumented(infos, oracle, init, |infos|);
    var second := Drive(infos, oracle, Run(first.bodies, first.calls, []), |infos|);
    AllDocumented(infos, oracle, Run(first.bodies, first.calls, []), |infos|);
    assert second.bodies[j][1..] == first.bodies[j];
    assert second.bodies[j][2..] == first.bodies[j][1..];
  }

  /**
   * The file always holds the serialisation of the current tree: it is the
   * original text until the first patch, and after that the last write, which
   * is the tree as it stands.  So a run stopped after any node leaves on disk
   * exactly the patches made so far.
   */
  lemma {:induction false} DiskReflectsTree(infos: seq<NodeInfo>, oracle: Oracle, init: Run, n: nat)
    requires n <= |infos| == |init.bodies|
    requires init.writes == []
    ensures Disk(Drive(infos, oracle, init, n), init.bodies) == Drive(infos, oracle, init, n).bodies
    decreases n
  {
    if n > 0 {
      DiskReflectsTree(infos, oracle, init, n - 1);
    }
  }

  /** How one iteration of the loop of `main` changes the state, by the outcome of generation. */
  lemma VisitFunction(infos: seq<NodeInfo>, oracle: Oracle, r: Run, i: nat)
    requires i < |infos| == |r.bodies|
    requires IsFunctionNode(infos[i].kind)
    ensures var a := Obtain(oracle, infos[i].code, r.calls, DefaultTries);
            a.outcome.Failure? ==> Visit(infos, oracle, r, i) == r.(calls := a.calls)
    ensures var a := Obtain(oracle, infos[i].code, r.calls, DefaultTries);
            a.outcome.Success? ==>
              var bodies := r.bodies[i := Prepend(a.outcome.value, r.bodies[i])];
              Visit(infos, oracle, r, i) == Run(bodies, a.calls, r.writes + [bodies])
  {
  }

  /**
   * One iteration of the loop of `main`, on the node at index `i` of the walk:
   * from the state after `i` nodes to the state after `i + 1`.
   */
  method VisitNode(nodes: seq<Node>, i: nat, oracle: Oracle, calls0: nat, writes0: seq<Snapshot>,
                   ghost infos: seq<NodeInfo>, ghost init: Run)
    returns (calls: nat, writes: seq<Snapshot>)
    requires Distinct(nodes) && i < |nodes| == |init.bodies| && infos == Infos(nodes)
    requires Drive(infos, oracle, init, i) == Run(Bodies(nodes), calls0, writes0)
    modifies nodes[i]
    ensures Drive(infos, oracle, init, i + 1) == Run(Bodies(nodes), calls, writes)
  {
    ghost var before := Run(Bodies(nodes), calls0, writes0);
    DriveStep(infos, oracle, init, i);
    assert infos[i] == NodeInfo(nodes[i].kind, nodes[i].name, nodes[i].code);
    calls, writes := calls0, writes0;
    var node := nodes[i];
    if node.kind == FunctionDef || node.kind == AsyncFunctionDef {
      var outcome;
      outcome, calls := GenerateDocstring(node.code, oracle, calls, DefaultTries);
      VisitFunction(infos, oracle, before, i);
      if outcome.Success? {
        PatchAt(nodes, i, outcome.value);
        writes := writes + [Bodies(nodes)];
      }
    }
  }

  /** The body of `main` after parsing: the loop over the walked nodes. */
  method DocumentFunctions(nodes: seq<Node>, oracle: Oracle, calls0: nat) returns (calls: nat, writes: seq<Snapshot>)
    requires Distinct(nodes)
    modifies nodes
    ensures Drive(Infos(nodes), oracle, Run(old(Bodies(nodes)), calls0, []), |nodes|)
            == Run(Bodies(nodes), calls, writes)
  {
    ghost var infos := Infos(nodes);
    ghost var init := Run(Bodies(nodes), calls0, []);
    calls, writes := calls0, [];
    var i := 0;
    while i < |nodes|
      invariant 0 <= i <= |nodes|
      invariant Drive(infos, oracle, init, i) == Run(Bodies(nodes), calls, writes)
    {
      calls, writes := VisitNode(nodes, i, oracle, calls, writes, infos, init);
      i := i + 1;
    }
  }
}
