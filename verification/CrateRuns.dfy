/** Chains of publishing runs, each cut where it may be (scripts/crates_release.py,
    `publish`). */
module CrateRuns {
  import opened Graphs
  import opened PublishOrder
  import opened CratePublish

  /** The worlds between runs that follow one another. */
  ghost predicate Runs(deps: Graph<Name>, crates: seq<Name>, closed: map<Name, Checksum>, ws: seq<World>) {
    |ws| > 0 && forall i :: 0 <= i < |ws| - 1 ==> Ran(deps, crates, closed, ws[i], ws[i + 1])
  }

  lemma RanItself(deps: Graph<Name>, crates: seq<Name>, closed: map<Name, Checksum>, a: World)
    requires Within(a.visible, a.accepted)
    ensures Ran(deps, crates, closed, a, a)
  {
    hide DependencyFirst;
  }

  /** What was missing at the start of the later run was missing at the start of the earlier. */
  lemma PutsCompose(crates: seq<Name>, closed: map<Name, Checksum>, a: World, b: World, c: World)
    requires Later(a, b) && Later(b, c)
    requires RunPuts(crates, closed, a.visible, |a.puts|, b.puts) && RunPuts(crates, closed, b.visible, |b.puts|, c.puts)
    ensures RunPuts(crates, closed, a.visible, |a.puts|, c.puts)
  {
    hide AllExact;
    forall k | |a.puts| <= k < |c.puts| ensures RunPut(c.puts[k], crates, closed, a.visible) {
      if k < |b.puts| {
        assert c.puts[k] == b.puts[k] && RunPut(b.puts[k], crates, closed, a.visible);
      } else {
        assert RunPut(c.puts[k], crates, closed, b.visible);
      }
    }
  }

  lemma WorkComposes(crates: seq<Name>, closed: map<Name, Checksum>, a: World, b: World, c: World)
    requires Later(a, b) && Later(b, c) && OwnWork(crates, closed, a, b) && OwnWork(crates, closed, b, c)
    ensures OwnWork(crates, closed, a, c)
  {
  }

  lemma {:induction false} RunsCompose(deps: Graph<Name>, crates: seq<Name>, closed: map<Name, Checksum>, ws: seq<World>, i: nat, j: nat)
    requires Runs(deps, crates, closed, ws) && i <= j < |ws| && Within(ws[i].visible, ws[i].accepted)
    ensures Ran(deps, crates, closed, ws[i], ws[j])
    decreases j
  {
    hide DependencyFirst;
    hide RunPuts;
    hide OwnWork;
    if i == j {
      RanItself(deps, crates, closed, ws[i]);
    } else {
      RunsCompose(deps, crates, closed, ws, i, j - 1);
      var a, b, c := ws[i], ws[j - 1], ws[j];
      assert Ran(deps, crates, closed, b, c);
      LaterChains(a, b, c);
      PutsCompose(crates, closed, a, b, c);
      WorkComposes(crates, closed, a, b, c);
    }
  }

  /** Over any chain of runs, cut or not and whatever others publish meanwhile: a crate
      shown with some bytes stays shown with them, and no later upload is of it. */
  lemma ShownIsSettled(deps: Graph<Name>, crates: seq<Name>, closed: map<Name, Checksum>, ws: seq<World>, i: nat, j: nat, c: Name)
    requires Runs(deps, crates, closed, ws) && i <= j < |ws| && c in ws[i].visible && Within(ws[i].visible, ws[i].accepted)
    ensures c in ws[j].visible && ws[j].visible[c] == ws[i].visible[c]
    ensures forall k :: |ws[i].puts| <= k < |ws[j].puts| ==> ws[j].puts[k].crate != c
  {
    RunsCompose(deps, crates, closed, ws, i, j);
    hide DependencyFirst;
    hide OwnWork;
    RerunUploadsOnlyMissing(crates, closed, ws[i].visible, |ws[i].puts|, ws[j].puts);
  }

  /** Over any chain of runs every upload goes out after all the crate's dependencies are
      shown with their closed bytes. */
  lemma ChainsKeepOrder(deps: Graph<Name>, crates: seq<Name>, closed: map<Name, Checksum>, ws: seq<World>, k: nat, d: Name)
    requires Runs(deps, crates, closed, ws) && Within(ws[0].visible, ws[0].accepted)
    requires |ws[0].puts| <= k < |ws[|ws| - 1].puts|
    requires var put := ws[|ws| - 1].puts[k]; put.crate in deps && d in deps[put.crate]
    ensures var put := ws[|ws| - 1].puts[k];
      && put.crate in closed && put.checksum == closed[put.crate]
      && d in closed && d in put.shown && put.shown[d] == closed[d]
  {
    var a, b := ws[0], ws[|ws| - 1];
    RunsCompose(deps, crates, closed, ws, 0, |ws| - 1);
    DependenciesComeFirst(deps, crates, closed, a.visible, |a.puts|, b.puts, k, d);
    hide DependencyFirst;
    assert RunPut(b.puts[k], crates, closed, a.visible);
  }

  lemma ConflictsCarry(crates: seq<Name>, closed: map<Name, Checksum>, a: World, b: World)
    requires Later(a, b) && a.foreign == b.foreign && OwnWork(crates, closed, a, b)
    ensures NoConflicts(crates, closed, a.accepted) <==> NoConflicts(crates, closed, b.accepted)
  {
    if NoConflicts(crates, closed, a.accepted) {
      forall c | c in crates && c in closed ensures NoConflict(b.accepted, c, closed[c]) {
        assert NoConflict(a.accepted, c, closed[c]);
      }
    }
    if NoConflicts(crates, closed, b.accepted) {
      forall c | c in crates && c in closed ensures NoConflict(a.accepted, c, closed[c]) {
        assert NoConflict(b.accepted, c, closed[c]);
      }
    }
  }

  /** However many runs have been cut short, met faults or lost uploads: if nobody else has
      published, the next one without a fault completes exactly when the first could have. */
  lemma RestartsComplete(deps: Graph<Name>, crates: seq<Name>, closed: map<Name, Checksum>, ws: seq<World>, c: World, completed: bool)
    requires Runs(deps, crates, closed, ws) && Within(ws[0].visible, ws[0].accepted)
    requires var b := ws[|ws| - 1]; ws[0].foreign == b.foreign && Clean(b, c)
    requires Clean(ws[|ws| - 1], c) ==>
      (completed <==> DependencyFirst(deps, crates) && NoConflicts(crates, closed, ws[|ws| - 1].accepted))
    ensures completed <==> DependencyFirst(deps, crates) && NoConflicts(crates, closed, ws[0].accepted)
  {
    hide DependencyFirst;
    hide NoConflicts;
    RunsCompose(deps, crates, closed, ws, 0, |ws| - 1);
    ConflictsCarry(crates, closed, ws[0], ws[|ws| - 1]);
  }
}
