/** The mutable process table. Each method is proved to do what the matching step of `Forest` says. */
module ProcTableClass {
  import opened Wrappers
  import opened Forest
  import opened Ancestry
  import opened Seeding

  class ProcTable {
    var nodes: Nodes
    var pendingParent: map<Tgid, Tgid>
    var byTgid: map<Tgid, ProcKey>

    function View(): Table
      reads this
    {
      Table(nodes, pendingParent, byTgid)
    }

    constructor ()
      ensures View() == EMPTY_TABLE
    {
      nodes, pendingParent, byTgid := map[], map[], map[];
    }

    method OnFork(parentTgid: Tgid, parentStart: nat, childTgid: Tgid)
      modifies this
      ensures View() == ForkStep(old(View()), parentTgid, childTgid)
    {
      var childKey := ProcKey(childTgid, 0);
      var node := NewNode(childKey);
      if parentTgid in byTgid {
        var parentKey := byTgid[parentTgid];
        node := node.(parent := Some(parentKey));
        if parentKey in nodes {
          nodes := nodes[parentKey := nodes[parentKey].(children := nodes[parentKey].children + {childKey})];
        }
      }
      if node.parent.Some? && node.parent.value in nodes {
        var parent := nodes[node.parent.value];
        node := node.(comm := parent.comm);
        node := node.(exe := parent.exe);
      }
      nodes := nodes[childKey := node];
      byTgid := byTgid[childTgid := childKey];
    }

    /** Makes sure `key` has a node, renaming the placeholder of its process if there is one. */
    method Ensure(key: ProcKey)
      modifies this
      ensures View() == EnsureStep(old(View()), key)
    {
      if key in nodes {
        return;
      }
      if key.startTime != 0 && ProcKey(key.tgid, 0) in nodes {
        Promote(key);
      } else {
        InsertFresh(key);
      }
    }

    method Promote(key: ProcKey)
      requires Promotes(View(), key)
      modifies this
      ensures View() == PromoteStep(old(View()), key)
    {
      var placeholder := ProcKey(key.tgid, 0);
      var node := nodes[placeholder];
      nodes := nodes - {placeholder};
      if node.parent.Some? && node.parent.value in nodes {
        var pk := node.parent.value;
        nodes := nodes[pk := nodes[pk].(children := nodes[pk].children - {placeholder})];
        nodes := nodes[pk := nodes[pk].(children := nodes[pk].children + {key})];
      }
      assert nodes == SwapChild(old(nodes) - {placeholder}, node.parent, placeholder, key);
      RelinkChildren(node.children, key);
      node := node.(key := key);
      nodes := nodes[key := node];
      byTgid := byTgid[key.tgid := key];
    }

    method InsertFresh(key: ProcKey)
      modifies this
      ensures View() == FreshStep(old(View()), key)
    {
      var node := NewNode(key);
      if key.tgid in pendingParent {
        var ptgid := pendingParent[key.tgid];
        if ptgid in byTgid {
          var parentKey := byTgid[ptgid];
          node := node.(parent := Some(parentKey));
          if parentKey in nodes {
            nodes := nodes[parentKey := nodes[parentKey].(children := nodes[parentKey].children + {key})];
          }
        }
      }
      pendingParent := pendingParent - {key.tgid};
      nodes := nodes[key := node];
      byTgid := byTgid[key.tgid := key];
    }

    /** Points every listed child that is in the table at `key`. A hash set has no fixed order,
        so the next child is an arbitrary one. */
    method RelinkChildren(children: set<ProcKey>, key: ProcKey)
      modifies this`nodes
      ensures nodes == Relink(old(nodes), children, key)
    {
      var todo := children;
      while todo != {}
        invariant todo <= children
        invariant nodes == Relink(old(nodes), children - todo, key)
        decreases |todo|
      {
        var ck :| ck in todo;
        if ck in nodes {
          nodes := nodes[ck := nodes[ck].(parent := Some(key))];
        }
        todo := todo - {ck};
      }
    }

    method OnExec(key: ProcKey, comm: string, uid: nat, argv: seq<string>)
      modifies this
      ensures View() == ExecStep(old(View()), key, comm, uid, argv)
    {
      Ensure(key);
      nodes := nodes[key := nodes[key].(comm := comm)];
      nodes := nodes[key := nodes[key].(uid := uid)];
      nodes := nodes[key := nodes[key].(argv := argv)];
    }

    method OnProcExec(key: ProcKey, exe: string)
      modifies this
      ensures View() == ProcExecStep(old(View()), key, exe)
    {
      Ensure(key);
      nodes := nodes[key := nodes[key].(exe := exe)];
    }

    method OnExit(key: ProcKey, groupDead: bool, now: Time)
      modifies this
      ensures View() == ExitStep(old(View()), key, groupDead, now)
    {
      if !groupDead {
        return;
      }
      var target := if key in nodes then key else ProcKey(key.tgid, 0);
      if target in nodes {
        nodes := nodes[target := nodes[target].(exitedAt := Some(now))];
      }
      byTgid := byTgid - {key.tgid};
    }

    /** The walk upwards. It is called only where following parents comes to an end, which in a forest is
        everywhere. */
    method AncestryOf(key: ProcKey) returns (out: seq<ProcNode>)
      requires var n := Resolve(View(), key); n.Some? ==> Ends(nodes, n.value.parent)
      ensures Resolve(View(), key).None? ==> out == []
      ensures var n := Resolve(View(), key);
              n.Some? ==>
                var ks := PathOf(nodes, n.value.parent);
                (forall k | k in ks :: k in nodes) && out == NodesAt(nodes, ks)
    {
      out := [];
      var n := Resolve(View(), key);
      var cur := if n.Some? then n.value.parent else None;
      ghost var ks := if n.Some? then PathOf(nodes, n.value.parent) else [];
      PathLinks(nodes, cur, ks);
      while cur.Some?
        invariant |out| <= |ks|
        invariant IsPath(nodes, cur, ks[|out|..])
        invariant forall i | 0 <= i < |out| :: out[i] == nodes[ks[i]]
        decreases |ks| - |out|
      {
        if cur.value !in nodes {
          break;
        }
        var node := nodes[cur.value];
        assert ks[|out|..][1..] == ks[|out| + 1..];
        out := out + [node];
        cur := node.parent;
      }
      assert out == NodesAt(nodes, ks);
    }

    method Reap(now: Time, grace: nat)
      modifies this
      ensures View() == ReapStep(old(View()), now, grace)
    {
      var dead := set k | k in nodes && PastGrace(nodes[k], now, grace) && nodes[k].children == {} :: nodes[k].key;
      RemoveAll(dead);
    }

    /** Removes the nodes one by one, each from the map and from its parent's children. */
    method RemoveAll(dead: set<ProcKey>)
      modifies this`nodes
      ensures nodes == Without(old(nodes), dead)
    {
      var todo := dead;
      RemoveNone(nodes);
      assert dead - todo == {};
      while todo != {}
        invariant todo <= dead
        invariant nodes == Without(old(nodes), dead - todo)
        decreases |todo|
      {
        var key :| key in todo;
        ghost var gone := dead - todo;
        if key in nodes {
          var node := nodes[key];
          nodes := nodes - {key};
          if node.parent.Some? && node.parent.value in nodes {
            var pk := node.parent.value;
            nodes := nodes[pk := nodes[pk].(children := nodes[pk].children - {key})];
          }
        }
        RemoveOne(old(nodes), gone, key);
        todo := todo - {key};
        assert dead - todo == gone + {key};
      }
      assert dead - todo == dead;
    }

    static lemma RemoveNone(all: Nodes)
      ensures Without(all, {}) == all
    {
      forall k | k in all
        ensures Without(all, {})[k] == all[k]
      {
        assert Without(all, {})[k].children == all[k].children;
      }
    }

    static lemma RemoveOne(all: Nodes, gone: set<ProcKey>, key: ProcKey)
      requires key !in gone
      ensures var before, after := Without(all, gone), Without(all, gone + {key});
              && (key !in before ==> after == before)
              && (key in before ==>
                    var node, rest := before[key], before - {key};
                    after == if node.parent.Some? && node.parent.value in rest
                             then rest[node.parent.value :=
                                    rest[node.parent.value].(children := rest[node.parent.value].children - {key})]
                             else rest)
    {
      var before, after := Without(all, gone), Without(all, gone + {key});
      forall k | k in after
        ensures k in before
        ensures after[k].children == if key in all && all[key].parent == Some(k) then before[k].children - {key}
                                     else before[k].children
      {
      }
      assert after.Keys == before.Keys - {key};
    }

    method Seed(procs: seq<ProcInfo>)
      modifies this
      ensures View() == SeedStep(old(View()), procs)
    {
      ghost var start := View();
      for i := 0 to |procs|
        invariant View() == InsertAll(start, procs[..i])
      {
        var p := procs[i];
        var key := ProcKey(p.tgid, p.startTimeNs);
        var node := NewNode(key);
        node := node.(comm := p.comm);
        node := node.(exe := p.exe);
        node := node.(argv := p.argv);
        node := node.(uid := p.uid);
        nodes := nodes[key := node];
        byTgid := byTgid[p.tgid := key];
        assert procs[..i + 1][..i] == procs[..i];
      }
      assert procs[..|procs|] == procs;
      ghost var inserted := View();
      for i := 0 to |procs|
        invariant View() == LinkAll(inserted, procs[..i])
      {
        assert procs[..i + 1][..i] == procs[..i];
        var p := procs[i];
        if p.tgid !in byTgid || p.ppid !in byTgid {
          continue;
        }
        var childKey := byTgid[p.tgid];
        var parentKey := byTgid[p.ppid];
        if childKey in nodes {
          nodes := nodes[childKey := nodes[childKey].(parent := Some(parentKey))];
        }
        if parentKey in nodes {
          nodes := nodes[parentKey := nodes[parentKey].(children := nodes[parentKey].children + {childKey})];
        }
      }
    }
  }
}
