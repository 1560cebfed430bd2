/**
 * main.py: the earlier script.  It documents plain function nodes only, asks
 * the oracle once per node with no retry, accepts a docstring only between an
 * opening and a closing marker, and has no exception handler, so an oracle
 * exception ends the whole script.
 */
module DraftScript {
  import opened Wrappers
  import opened Extraction
  import opened SourceModel
  import opened Generation
  import opened Autodocstring

  /** The script state: the patch loop state and whether an exception ended the script. */
  datatype DraftRun = DraftRun(run: Run, crashed: bool)

  /**
   * One iteration of the loop of the script, on node `i`.  Nothing happens once
   * the script has crashed or when the node is not a plain function; otherwise
   * the oracle is called once, and strict extraction decides whether to patch.
   */
  function DraftVisit(infos: seq<NodeInfo>, oracle: Oracle, s: DraftRun, i: nat): (s': DraftRun)
    requires i < |infos| == |s.run.bodies|
    ensures |s'.run.bodies| == |infos| && s.run.calls <= s'.run.calls
    ensures s'.run.bodies == s.run.bodies[i := s'.run.bodies[i]]
    ensures s'.run.writes == (if s'.run.bodies == s.run.bodies then s.run.writes else s.run.writes + [s'.run.bodies])
    ensures s.crashed ==> s' == s
  {
    if s.crashed || infos[i].kind != FunctionDef then
      s
    else
      var r := s.run;
      match oracle(r.calls, infos[i].code)
      case Raised => DraftRun(r.(calls := r.calls + 1), true)
      case Text(raw) =>
        match ExtractStrict(raw)
        case Success(doc) =>
          var bodies := r.bodies[i := Prepend(doc, r.bodies[i])];
          assert bodies[i] != r.bodies[i];
          DraftRun(Run(bodies, r.calls + 1, r.writes + [bodies]), false)
        case Failure(_) => DraftRun(r.(calls := r.calls + 1), false)
  }

  /** The state after the script's loop has visited the first `n` nodes. */
  function DraftDrive(infos: seq<NodeInfo>, oracle: Oracle, init: DraftRun, n: nat): (s: DraftRun)
    requires n <= |infos| == |init.run.bodies|
    ensures |s.run.bodies| == |infos| && init.run.calls <= s.run.calls
    ensures s.run.bodies[n..] == init.run.bodies[n..]
    decreases n
  {
    if n == 0 then init else DraftVisit(infos, oracle, DraftDrive(infos, oracle, init, n - 1), n - 1)
  }

  /** The script's loop visits the nodes one after the other. */
  lemma DraftStep(infos: seq<NodeInfo>, oracle: Oracle, init: DraftRun, i: nat)
    requires i < |infos| == |init.run.bodies|
    ensures DraftDrive(infos, oracle, init, i + 1) == DraftVisit(infos, oracle, DraftDrive(infos, oracle, init, i), i)
  {
  }

  /**
   * One iteration either leaves the node's body alone, or the node is a plain
   * function and its body gained one marker-free docstring in front; an
   * iteration on an async function or any other node changes nothing at all.
   */
  lemma DraftVisitOutcome(infos: seq<NodeInfo>, oracle: Oracle, s: DraftRun, i: nat)
    requires i < |infos| == |s.run.bodies|
    ensures var b := DraftVisit(infos, oracle, s, i).run.bodies[i];
            b == s.run.bodies[i] || (infos[i].kind == FunctionDef && Documented(b, s.run.bodies[i]))
    ensures infos[i].kind != FunctionDef ==> DraftVisit(infos, oracle, s, i) == s
  {
    var resp := oracle(s.run.calls, infos[i].code);
    if resp.Text? {
      StrictSpec(resp.text);
    }
  }

  /**
   * A plain function is patched exactly when the one answer about it has an
   * opening and a closing marker; an answer without an opening marker, or with
   * an opening marker and no closing one, leaves the tree and the file alone
   * and the script goes on; an exception ends it with nothing more written.
   */
  lemma DraftVisitFunction(infos: seq<NodeInfo>, oracle: Oracle, s: DraftRun, i: nat)
    requires i < |infos| == |s.run.bodies|
    requires !s.crashed && infos[i].kind == FunctionDef
    ensures var s' := DraftVisit(infos, oracle, s, i);
            var resp := oracle(s.run.calls, infos[i].code);
            && s'.run.calls == s.run.calls + 1
            && (s'.crashed <==> resp.Raised?)
            && (s'.run.bodies != s.run.bodies <==> resp.Text? && ExtractStrict(resp.text).Success?)
            && (resp.Text? && !ContainsMarker(resp.text) ==> s'.run == s.run.(calls := s.run.calls + 1))
  {
    var resp := oracle(s.run.calls, infos[i].code);
    if resp.Text? {
      StrictSpec(resp.text);
    }
  }

  /** Once the script has crashed, no later node changes anything. */
  lemma {:induction false} CrashIsFinal(infos: seq<NodeInfo>, oracle: Oracle, init: DraftRun, i: nat, n: nat)
    requires i <= n <= |infos| == |init.run.bodies|
    requires DraftDrive(infos, oracle, init, i).crashed
    ensures DraftDrive(infos, oracle, init, n) == DraftDrive(infos, oracle, init, i)
    decreases n
  {
    if n > i {
      CrashIsFinal(infos, oracle, init, i, n - 1);
      var before := DraftDrive(infos, oracle, init, n - 1);
      assert before == DraftDrive(infos, oracle, init, i);
      assert DraftDrive(infos, oracle, init, n) == DraftVisit(infos, oracle, before, n - 1);
    }
  }

  /** Once node `j` has been visited, no later iteration touches its body. */
  lemma {:induction false} DraftSettled(infos: seq<NodeInfo>, oracle: Oracle, init: DraftRun, j: nat, n: nat)
    requires j < n <= |infos| == |init.run.bodies|
    ensures DraftDrive(infos, oracle, init, n).run.bodies[j] == DraftDrive(infos, oracle, init, j + 1).run.bodies[j]
    decreases n
  {
    if n > j + 1 {
      DraftSettled(infos, oracle, init, j, n - 1);
      DraftStep(infos, oracle, init, n - 1);
      var before, after := DraftDrive(infos, oracle, init, n - 1), DraftDrive(infos, oracle, init, n);
      assert after.run.bodies == before.run.bodies[n - 1 := after.run.bodies[n - 1]];
      assert after.run.bodies[j] == before.run.bodies[j];
    }
  }

  /**
   * After the script, every node either kept its body, or is a plain function
   * whose body gained exactly one docstring in front; async functions are
   * never documented.
   */
  lemma DraftOutcome(infos: seq<NodeInfo>, oracle: Oracle, init: DraftRun, j: nat)
    requires j < |infos| == |init.run.bodies|
    ensures var b := DraftDrive(infos, oracle, init, |infos|).run.bodies[j];
            b == init.run.bodies[j] || (infos[j].kind == FunctionDef && Documented(b, init.run.bodies[j]))
  {
    DraftSettled(infos, oracle, init, j, |infos|);
    DraftVisitOutcome(infos, oracle, DraftDrive(infos, oracle, init, j), j);
  }

  /** The number of plain function nodes in `infos`. */
  function SyncCount(infos: seq<NodeInfo>): nat {
    if infos == [] then 0
    else SyncCount(infos[..|infos| - 1]) + (if infos[|infos| - 1].kind == FunctionDef then 1 else 0)
  }

  /** A script that has not crashed called the oracle exactly once per plain function. */
  lemma {:induction false} DraftOneCallEach(infos: seq<NodeInfo>, oracle: Oracle, init: DraftRun, n: nat)
    requires n <= |infos| == |init.run.bodies|
    requires !DraftDrive(infos, oracle, init, n).crashed
    ensures DraftDrive(infos, oracle, init, n).run.calls == init.run.calls + SyncCount(infos[..n])
    decreases n
  {
    if n > 0 {
      var before := DraftDrive(infos, oracle, init, n - 1);
      assert !before.crashed;
      DraftOneCallEach(infos, oracle, init, n - 1);
      assert infos[..n][..n - 1] == infos[..n - 1];
    }
  }

  /**
   * For a plain function whose first answer has both markers, the script and
   * the later tool do the same thing: the same docstring, one call, one write.
   */
  lemma DraftAgreesOnClosedAnswer(infos: seq<NodeInfo>, oracle: Oracle, s: DraftRun, i: nat)
    requires i < |infos| == |s.run.bodies|
    requires !s.crashed && infos[i].kind == FunctionDef
    requires oracle(s.run.calls, infos[i].code).Text?
    requires ExtractStrict(oracle(s.run.calls, infos[i].code).text).Success?
    ensures DraftVisit(infos, oracle, s, i) == DraftRun(Visit(infos, oracle, s.run, i), false)
  {
    StrictAgreesWithLenient(oracle(s.run.calls, infos[i].code).text);
  }

  /**
   * An answer with an opening marker and no closing one: the script leaves the
   * node alone, while the later tool takes the rest of the answer and patches.
   */
  lemma UnclosedAnswerDiffers(infos: seq<NodeInfo>, oracle: Oracle, s: DraftRun, i: nat)
    requires i < |infos| == |s.run.bodies|
    requires !s.crashed && infos[i].kind == FunctionDef
    requires oracle(s.run.calls, infos[i].code).Text?
    requires ExtractStrict(oracle(s.run.calls, infos[i].code).text) == Failure(NoClosingMarker)
    ensures DraftVisit(infos, oracle, s, i).run.bodies == s.run.bodies
    ensures Documented(Visit(infos, oracle, s.run, i).bodies[i], s.run.bodies[i])
  {
    var raw := oracle(s.run.calls, infos[i].code).text;
    StrictAgreesWithLenient(raw);
    StrictSpec(raw);
    LenientSpec(raw);
    ObtainFirstTry(oracle, infos[i].code, s.run.calls);
    VisitOutcome(infos, oracle, s.run, i);
  }

  /** Every answer is text with an opening and a closing marker. */
  ghost predicate AlwaysClosed(oracle: Oracle) {
    forall k, code :: oracle(k, code).Text? && ExtractStrict(oracle(k, code).text).Success?
  }

  /** The walk holds no async function. */
  predicate NoAsync(infos: seq<NodeInfo>) {
    forall j :: 0 <= j < |infos| ==> infos[j].kind != AsyncFunctionDef
  }

  /**
   * On a tree without async functions and with an oracle whose answers are
   * always closed, the script and the later tool produce the same tree, the
   * same calls and the same writes, and the script does not crash.
   */
  lemma {:induction false} DraftAgreesWithTool(infos: seq<NodeInfo>, oracle: Oracle, init: Run, n: nat)
    requires n <= |infos| == |init.bodies|
    requires NoAsync(infos) && AlwaysClosed(oracle)
    ensures DraftDrive(infos, oracle, DraftRun(init, false), n) == DraftRun(Drive(infos, oracle, init, n), false)
    decreases n
  {
    if n > 0 {
      DraftAgreesWithTool(infos, oracle, init, n - 1);
      var before := DraftDrive(infos, oracle, DraftRun(init, false), n - 1);
      DriveStep(infos, oracle, init, n - 1);
      if infos[n - 1].kind == FunctionDef {
        DraftAgreesOnClosedAnswer(infos, oracle, before, n - 1);
      }
    }
  }

  /**
   * The file always holds the serialisation of the current tree, also after a
   * crash: a crash leaves on disk exactly the patches made before it.
   */
  lemma {:induction false} DraftDiskReflectsTree(infos: seq<NodeInfo>, oracle: Oracle, init: DraftRun, n: nat)
    requires n <= |infos| == |init.run.bodies|
    requires init.run.writes == []
    ensures Disk(DraftDrive(infos, oracle, init, n).run, init.run.bodies) == DraftDrive(infos, oracle, init, n).run.bodies
    decreases n
  {
    if n > 0 {
      DraftDiskReflectsTree(infos, oracle, init, n - 1);
    }
  }

  /** How one iteration of the script changes the state, by the answer. */
  lemma DraftVisitCases(infos: seq<NodeInfo>, oracle: Oracle, r: Run, i: nat)
    requires i < |infos| == |r.bodies|
    requires infos[i].kind == FunctionDef
    ensures var resp := oracle(r.calls, infos[i].code);
            resp.Raised? ==> DraftVisit(infos, oracle, DraftRun(r, false), i) == DraftRun(r.(calls := r.calls + 1), true)
    ensures var resp := oracle(r.calls, infos[i].code);
            resp.Text? && ExtractStrict(resp.text).Failure? ==>
              DraftVisit(infos, oracle, DraftRun(r, false), i) == DraftRun(r.(calls := r.calls + 1), false)
    ensures var resp := oracle(r.calls, infos[i].code);
            resp.Text? && ExtractStrict(resp.text).Success? ==>
              var bodies := r.bodies[i := Prepend(ExtractStrict(resp.text).value, r.bodies[i])];
              DraftVisit(infos, oracle, DraftRun(r, false), i) == DraftRun(Run(bodies, r.calls + 1, r.writes + [bodies]), false)
  {
  }

  /** One iteration of the script's loop, on the node at index `i` of the walk. */
  method DraftVisitNode(nodes: seq<Node>, i: nat, oracle: Oracle, calls0: nat, writes0: seq<Snapshot>)
    returns (calls: nat, writes: seq<Snapshot>, crashed: bool)
    requires Distinct(nodes) && i < |nodes|
    modifies nodes[i]
    ensures DraftVisit(Infos(nodes), oracle, DraftRun(Run(old(Bodies(nodes)), calls0, writes0), false), i)
            == DraftRun(Run(Bodies(nodes), calls, writes), crashed)
  {
    ghost var before := Run(Bodies(nodes), calls0, writes0);
    ghost var infos := Infos(nodes);
    assert infos[i] == NodeInfo(nodes[i].kind, nodes[i].name, nodes[i].code);
    calls, writes, crashed := calls0, writes0, false;
    var node := nodes[i];
    if node.kind == FunctionDef {
      var response := oracle(calls, node.code);
      calls := calls + 1;
      DraftVisitCases(infos, oracle, before, i);
      if response.Raised? {
        crashed := true;
        return;
      }
      var raw := response.text;
      var opening := Find(raw, 0);
      if opening != -1 {
        var start := opening + |Marker|;
        var end := Find(raw, start);
        if end != -1 {
          PatchAt(nodes, i, raw[start..end]);
          writes := writes + [Bodies(nodes)];
        }
      }
    }
  }

  /** The script after parsing: the loop over the walked nodes, ended early by an exception. */
  method RunScript(nodes: seq<Node>, oracle: Oracle, calls0: nat) returns (calls: nat, writes: seq<Snapshot>, crashed: bool)
    requires Distinct(nodes)
    modifies nodes
    ensures DraftDrive(Infos(nodes), oracle, DraftRun(Run(old(Bodies(nodes)), calls0, []), false), |nodes|)
            == DraftRun(Run(Bodies(nodes), calls, writes), crashed)
  {
    ghost var infos := Infos(nodes);
    ghost var init := DraftRun(Run(Bodies(nodes), calls0, []), false);
    calls, writes, crashed := calls0, [], false;
    var i := 0;
    while i < |nodes| && !crashed
      invariant 0 <= i <= |nodes|
      invariant DraftDrive(infos, oracle, init, i) == DraftRun(Run(Bodies(nodes), calls, writes), crashed)
    {
      DraftStep(infos, oracle, init, i);
      calls, writes, crashed := DraftVisitNode(nodes, i, oracle, calls, writes);
      i := i + 1;
    }
    if crashed {
      CrashIsFinal(infos, oracle, init, i, |nodes|);
    }
  }
}
