/** `decluster_possible_dynamic_ops`: an op whose output shape depends on
    its input values (`Where`, `Unique` and those named in
    `TF_XLA_DYNAMIC_OPS`) that feeds a cluster other than its own makes
    everything it reaches inside that cluster possibly dynamic, and those
    nodes are taken out of their clusters.

    The `visited` map from node names to booleans is the set of names
    mapped to true: `operator[]` reads an absent name as false, so the
    names the source maps to false are those outside the set. */
module DeclusterPossibleDynamicOps {
  import opened Errors
  import opened Graphs

  /** `absl::StrSplit(s, ',')`: the pieces between commas, empty ones
      included. */
  function Split(s: string): (r: seq<string>)
    ensures |r| >= 1
  {
    if s == [] then [[]]
    else
      var rest := Split(s[1..]);
      if s[0] == ',' then [[]] + rest
      else [[s[0]] + rest[0]] + rest[1..]
  }

  /** The pieces joined again with commas between them. */
  function Join(pieces: seq<string>): string
    requires |pieces| >= 1
  {
    if |pieces| == 1 then pieces[0] else pieces[0] + [','] + Join(pieces[1..])
  }

  /** Splitting loses nothing: the pieces join back to the string, and no
      piece holds a comma. */
  lemma {:induction false} JoinSplit(s: string)
    ensures Join(Split(s)) == s
    ensures forall i :: 0 <= i < |Split(s)| ==> ',' !in Split(s)[i]
  {
    if s != [] {
      var rest := Split(s[1..]);
      JoinSplit(s[1..]);
      if s[0] == ',' {
        assert Split(s)[1..] == rest;
        assert s == [','] + s[1..];
      } else {
        var r := Split(s);
        assert r[0] == [s[0]] + rest[0];
        if |rest| == 1 {
          assert s == [s[0]] + s[1..];
        } else {
          assert r[1..] == rest[1..];
          assert Join(r) == r[0] + [','] + Join(rest[1..]);
          assert Join(rest) == rest[0] + [','] + Join(rest[1..]);
          assert s == [s[0]] + s[1..];
        }
        forall i | 0 <= i < |r|
          ensures ',' !in r[i]
        {
          if i > 0 { assert r[i] == rest[i]; }
        }
      }
    }
  }

  /** The ops `GetBlacklistedDynamicOps` reports when `TF_XLA_DYNAMIC_OPS`
      holds `config`. */
  function BlacklistedOps(config: string): set<string>
  {
    {"Where", "Unique"} + if config == "" then {} else (set piece | piece in Split(config))
  }

  /** `GetBlacklistedDynamicOps`, with the environment variable's value
      given. */
  method GetBlacklistedDynamicOps(config: string) returns (result: set<string>)
    ensures result == BlacklistedOps(config)
    ensures "Where" in result && "Unique" in result
    ensures config != "" ==> forall i :: 0 <= i < |Split(config)| ==> Split(config)[i] in result
    ensures forall op :: op in result && op != "Where" && op != "Unique" ==> config != "" && ',' !in op
  {
    result := {"Where", "Unique"};
    var blacklistedOps := config;
    if blacklistedOps != "" {
      var pieces := Split(blacklistedOps);
      for i := 0 to |pieces|
        invariant result == {"Where", "Unique"} + set j | 0 <= j < i :: pieces[j]
      {
        result := result + {pieces[i]};
      }
      JoinSplit(blacklistedOps);
    }
  }

  /** The names of the nodes of `s`. */
  function NamesOf(g: GraphValue, s: seq<NodeId>): set<string>
    requires forall i :: 0 <= i < |s| ==> s[i] in g.nodes
  {
    if s == [] then {} else NamesOf(g, s[..|s| - 1]) + {g.nodes[s[|s| - 1]].name}
  }

  lemma {:induction false} NamesOfAppend(g: GraphValue, s: seq<NodeId>, t: seq<NodeId>)
    requires forall i :: 0 <= i < |s| ==> s[i] in g.nodes
    requires forall i :: 0 <= i < |t| ==> t[i] in g.nodes
    ensures NamesOf(g, s + t) == NamesOf(g, s) + NamesOf(g, t)
    decreases |t|
  {
    if t == [] {
      assert s + t == s;
    } else {
      var u := t[..|t| - 1];
      assert (s + t)[..|s + t| - 1] == s + u;
      NamesOfAppend(g, s, u);
    }
  }

  lemma {:induction false} NamesOfMember(g: GraphValue, s: seq<NodeId>, i: nat)
    requires forall j :: 0 <= j < |s| ==> s[j] in g.nodes
    requires i < |s|
    ensures g.nodes[s[i]].name in NamesOf(g, s)
    decreases |s|
  {
    if i < |s| - 1 {
      NamesOfMember(g, s[..|s| - 1], i);
    }
  }

  /** The nodes of `s` all lie in the cluster `c`. */
  predicate InCluster(g: GraphValue, s: seq<NodeId>, c: string)
  {
    forall i :: 0 <= i < |s| ==> s[i] in g.nodes && g.nodes[s[i]].cluster == Some(c)
  }

  /** No name occurs twice among the nodes of `s`, so no node does. */
  predicate DistinctNames(g: GraphValue, s: seq<NodeId>)
    requires forall i :: 0 <= i < |s| ==> s[i] in g.nodes
  {
    forall i, j :: 0 <= i < j < |s| ==> g.nodes[s[i]].name != g.nodes[s[j]].name
  }

  /** No two nodes of the graph share a name, as in a TensorFlow graph. */
  predicate UniqueNames(g: GraphValue)
  {
    forall a, b :: a in g.nodes && b in g.nodes && g.nodes[a].name == g.nodes[b].name ==> a == b
  }

  /** Every consumer of a node of `s` that lies in that node's cluster has
      its name in `visited`: the search stopped nowhere short. */
  predicate Closed(g: GraphValue, s: seq<NodeId>, visited: set<string>)
    requires WellFormed(g)
    requires forall i :: 0 <= i < |s| ==> s[i] in g.nodes
  {
    forall i, e ::
      (0 <= i < |s| && e in g.edges && e.src == s[i] && g.nodes[e.dst].cluster == g.nodes[s[i]].cluster)
      ==> g.nodes[e.dst].name in visited
  }

  /** The names of all nodes of the graph. */
  function AllNames(g: GraphValue): set<string>
  {
    set id | id in g.nodes :: g.nodes[id].name
  }

  /** Some edge leads from `n` to `m`: `m` is one of `n->out_nodes()`. */
  ghost predicate Consumes(g: GraphValue, n: NodeId, m: NodeId)
  {
    exists e :: e in g.edges && e.src == n && e.dst == m
  }

  /** `p` walks along edges through nodes of the cluster `c`, none of them
      named in `avoid`. */
  ghost predicate PathWithin(g: GraphValue, c: string, avoid: set<string>, p: seq<NodeId>)
  {
    && |p| >= 1
    && (forall k :: 0 <= k < |p| ==>
          p[k] in g.nodes && g.nodes[p[k]].cluster == Some(c) && g.nodes[p[k]].name !in avoid)
    && (forall k :: 0 < k < |p| ==> Consumes(g, p[k - 1], p[k]))
  }

  /** `n` is reachable from `start` through the cluster `c` without passing
      a node named in `avoid`. */
  ghost predicate ReachableWithin(g: GraphValue, c: string, avoid: set<string>, start: NodeId, n: NodeId)
  {
    exists p :: PathWithin(g, c, avoid, p) && p[0] == start && p[|p| - 1] == n
  }

  lemma ReachableStart(g: GraphValue, c: string, avoid: set<string>, n: NodeId)
    requires n in g.nodes && g.nodes[n].cluster == Some(c) && g.nodes[n].name !in avoid
    ensures ReachableWithin(g, c, avoid, n, n)
  {
    assert PathWithin(g, c, avoid, [n]);
  }

  /** A reachable node's consumer in the same cluster is reachable. */
  lemma ReachableStep(g: GraphValue, c: string, avoid: set<string>, start: NodeId, m: NodeId, n: NodeId)
    requires ReachableWithin(g, c, avoid, start, m) && Consumes(g, m, n)
    requires n in g.nodes && g.nodes[n].cluster == Some(c) && g.nodes[n].name !in avoid
    ensures ReachableWithin(g, c, avoid, start, n)
  {
    var p :| PathWithin(g, c, avoid, p) && p[0] == start && p[|p| - 1] == m;
    var q := p + [n];
    assert forall k :: 0 <= k < |p| ==> q[k] == p[k];
    assert PathWithin(g, c, avoid, q);
  }

  /** Avoiding fewer names reaches at least as much. */
  lemma ReachableAvoidingFewer(g: GraphValue, c: string, avoid: set<string>, fewer: set<string>,
                               start: NodeId, n: NodeId)
    requires fewer <= avoid && ReachableWithin(g, c, avoid, start, n)
    ensures ReachableWithin(g, c, fewer, start, n)
  {
    var p :| PathWithin(g, c, avoid, p) && p[0] == start && p[|p| - 1] == n;
    assert PathWithin(g, c, fewer, p);
  }

  /** Under unique names, a node whose name is among those of `s` is in `s`. */
  lemma {:induction false} NamedIn(g: GraphValue, s: seq<NodeId>, n: NodeId)
    requires UniqueNames(g) && n in g.nodes
    requires forall i :: 0 <= i < |s| ==> s[i] in g.nodes
    requires g.nodes[n].name in NamesOf(g, s)
    ensures n in s
    decreases |s|
  {
    var last := s[|s| - 1];
    if g.nodes[last].name != g.nodes[n].name {
      NamedIn(g, s[..|s| - 1], n);
    }
  }

  /** Under unique names, a set of found nodes closed under same-cluster
      consumers, whose names together with `avoid` make up `visited`, holds
      every node of a path that avoids `avoid` and starts at a visited
      name: a search that stops only at visited names misses nothing. */
  lemma {:induction false} PathCovered(g: GraphValue, c: string, avoid: set<string>, visited: set<string>,
                                       found: seq<NodeId>, p: seq<NodeId>, k: nat)
    requires WellFormed(g) && UniqueNames(g)
    requires forall i :: 0 <= i < |found| ==> found[i] in g.nodes
    requires visited == avoid + NamesOf(g, found) && Closed(g, found, visited)
    requires PathWithin(g, c, avoid, p) && g.nodes[p[0]].name in visited
    requires k < |p|
    ensures p[k] in found
    decreases k
  {
    if k > 0 {
      PathCovered(g, c, avoid, visited, found, p, k - 1);
      var i :| 0 <= i < |found| && found[i] == p[k - 1];
      assert Consumes(g, p[k - 1], p[k]);
      var e :| e in g.edges && e.src == found[i] && e.dst == p[k];
      assert g.nodes[p[k]].name in visited;
    }
    NamedIn(g, found, p[k]);
  }

  /** The inner loop over `n->out_nodes()`: the consumers of `n` in the
      cluster `c` join the back of the queue, and nothing else does. */
  method PushSameClusterOutNodes(g: GraphValue, n: NodeId, c: string, queue: seq<NodeId>)
    returns (queue': seq<NodeId>)
    requires WellFormed(g)
    ensures |queue| <= |queue'| && queue'[..|queue|] == queue
    ensures InCluster(g, queue'[|queue|..], c)
    ensures forall i :: |queue| <= i < |queue'| ==> Consumes(g, n, queue'[i])
    ensures forall e :: e in g.edges && e.src == n && g.nodes[e.dst].cluster == Some(c) ==>
      e.dst in queue'[|queue|..]
  {
    var outEdges := OutEdges(g, n);
    queue' := queue;
    while outEdges != {}
      invariant outEdges <= OutEdges(g, n)
      invariant |queue| <= |queue'| && queue'[..|queue|] == queue
      invariant InCluster(g, queue'[|queue|..], c)
      invariant forall i :: |queue| <= i < |queue'| ==> Consumes(g, n, queue'[i])
      invariant forall e :: e in OutEdges(g, n) - outEdges && g.nodes[e.dst].cluster == Some(c) ==>
        e.dst in queue'[|queue|..]
      decreases |outEdges|
    {
      var e :| e in outEdges;
      outEdges := outEdges - {e};
      var outNode := e.dst;
      if g.nodes[outNode].cluster.Some? && g.nodes[outNode].cluster.value == c {
        ghost var pushed := queue'[|queue|..];
        assert Consumes(g, n, outNode);
        queue' := queue' + [outNode];
        assert queue'[|queue|..] == pushed + [outNode];
      }
    }
  }

  /** The breadth-first search of `PopulateReachableDynamicNodes` from
      `start`, a consumer in the cluster `c`: it adds exactly the nodes that
      `start` reaches through `c` without passing a name visited before
      (with unique names; without them it adds no more than those), and
      visits their names.  The source's `CHECK_EQ` that each visited node
      lies in `c` is proved here. */
  method Explore(g: GraphValue, c: string, start: NodeId, visited: set<string>,
                 candidates: seq<NodeId>)
    returns (visited': set<string>, candidates': seq<NodeId>)
    requires WellFormed(g)
    requires start in g.nodes && g.nodes[start].cluster == Some(c)
    ensures |candidates| <= |candidates'| && candidates'[..|candidates|] == candidates
    ensures var added := candidates'[|candidates|..];
      && InCluster(g, added, c) && DistinctNames(g, added)
      && NamesOf(g, added) !! visited && visited' == visited + NamesOf(g, added)
      && Closed(g, added, visited')
    ensures g.nodes[start].name in visited'
    ensures var added := candidates'[|candidates|..];
      forall i :: 0 <= i < |added| ==> ReachableWithin(g, c, visited, start, added[i])
    ensures var added := candidates'[|candidates|..];
      UniqueNames(g) ==> forall n :: ReachableWithin(g, c, visited, start, n) ==> n in added
  {
    var queue := [start];
    ghost var added: seq<NodeId> := [];
    visited', candidates' := visited, candidates;
    if g.nodes[start].name !in visited {
      ReachableStart(g, c, visited, start);
    }
    while queue != []
      invariant candidates' == candidates + added
      invariant Searching(g, c, start, visited, visited', added, queue)
      decreases AllNames(g) - visited', |queue|
    {
      var n := queue[0];
      ghost var queued := queue;
      queue := queue[1..];
      if g.nodes[n].name in visited' {
        SearchSkip(g, c, start, visited, visited', added, queued);
        continue;
      }
      assert g.nodes[n].name in AllNames(g);
      ghost var visitedBefore, addedBefore := visited', added;
      visited' := visited' + {g.nodes[n].name};
      var clusterN := g.nodes[n].cluster;
      assert clusterN == Some(c);
      candidates' := candidates' + [n];
      added := added + [n];
      queue := PushSameClusterOutNodes(g, n, c, queue);
      SearchVisit(g, c, start, visited, visitedBefore, addedBefore, queued, queue);
    }
    assert candidates'[|candidates|..] == added;
    if UniqueNames(g) {
      forall n | ReachableWithin(g, c, visited, start, n)
        ensures n in added
      {
        var p :| PathWithin(g, c, visited, p) && p[0] == start && p[|p| - 1] == n;
        PathCovered(g, c, visited, visited', added, p, |p| - 1);
      }
    }
  }

  /** The invariant of `Explore`'s loop: the nodes `added` so far lie in
      `c`, are reachable from `start` and carry new, distinct names, which
      `visited'` adds to `visited`; each of their consumers in `c` is
      visited or queued; every queued node lies in `c` and is visited
      before the search or reachable. */
  ghost predicate Searching(g: GraphValue, c: string, start: NodeId, visited: set<string>,
                            visited': set<string>, added: seq<NodeId>, queue: seq<NodeId>)
    requires WellFormed(g) && start in g.nodes
  {
    && InCluster(g, queue, c) && InCluster(g, added, c) && DistinctNames(g, added)
    && NamesOf(g, added) !! visited && visited' == visited + NamesOf(g, added)
    && (g.nodes[start].name in visited' || start in queue)
    && (forall i, e ::
          (0 <= i < |added| && e in g.edges && e.src == added[i] && g.nodes[e.dst].cluster == Some(c))
          ==> g.nodes[e.dst].name in visited' || e.dst in queue)
    && (forall i :: 0 <= i < |added| ==> ReachableWithin(g, c, visited, start, added[i]))
    && (forall i :: 0 <= i < |queue| ==>
          g.nodes[queue[i]].name in visited || ReachableWithin(g, c, visited, start, queue[i]))
  }

  /** Dropping a queued node whose name is visited keeps the invariant. */
  lemma SearchSkip(g: GraphValue, c: string, start: NodeId, visited: set<string>,
                   visited': set<string>, added: seq<NodeId>, queue: seq<NodeId>)
    requires WellFormed(g) && start in g.nodes && queue != []
    requires Searching(g, c, start, visited, visited', added, queue)
    requires g.nodes[queue[0]].name in visited'
    ensures Searching(g, c, start, visited, visited', added, queue[1..])
  {
    forall i, e | 0 <= i < |added| && e in g.edges && e.src == added[i] && g.nodes[e.dst].cluster == Some(c)
      ensures g.nodes[e.dst].name in visited' || e.dst in queue[1..]
    {
      if e.dst in queue && e.dst != queue[0] {
        var k :| 0 <= k < |queue| && queue[k] == e.dst;
        assert queue[1..][k - 1] == e.dst;
      }
    }
    forall i | 0 <= i < |queue| - 1
      ensures g.nodes[queue[1..][i]].name in visited || ReachableWithin(g, c, visited, start, queue[1..][i])
    {
      assert queue[1..][i] == queue[i + 1];
    }
  }

  /** Visiting the queued node `n` under a new name, adding it and queueing
      its consumers in `c` behind the rest keeps the invariant. */
  lemma SearchVisit(g: GraphValue, c: string, start: NodeId, visited: set<string>,
                    visited': set<string>, added: seq<NodeId>, queue: seq<NodeId>, queue': seq<NodeId>)
    requires WellFormed(g) && start in g.nodes && queue != []
    requires Searching(g, c, start, visited, visited', added, queue)
    requires g.nodes[queue[0]].name !in visited'
    requires |queue| - 1 <= |queue'| && queue'[..|queue| - 1] == queue[1..]
    requires InCluster(g, queue'[|queue| - 1..], c)
    requires forall i :: |queue| - 1 <= i < |queue'| ==> Consumes(g, queue[0], queue'[i])
    requires forall e :: e in g.edges && e.src == queue[0] && g.nodes[e.dst].cluster == Some(c) ==>
      e.dst in queue'[|queue| - 1..]
    ensures Searching(g, c, start, visited, visited' + {g.nodes[queue[0]].name}, added + [queue[0]], queue')
  {
    var n, rest := queue[0], queue[1..];
    var visitedNext, addedNext := visited' + {g.nodes[n].name}, added + [n];
    assert queue == [n] + rest;
    ExploreVisit(g, c, n, visited, added);
    assert InCluster(g, queue', c) by {
      forall i | 0 <= i < |queue'|
        ensures queue'[i] in g.nodes && g.nodes[queue'[i]].cluster == Some(c)
      {
        if i < |rest| {
          assert queue'[i] == queue[i + 1];
        } else {
          assert queue'[i] == queue'[|rest|..][i - |rest|];
        }
      }
    }
    forall i, e | 0 <= i < |addedNext| && e in g.edges && e.src == addedNext[i] &&
                  g.nodes[e.dst].cluster == Some(c)
      ensures g.nodes[e.dst].name in visitedNext || e.dst in queue'
    {
      if i == |added| {
        assert e.dst in queue'[|rest|..];
      } else {
        assert addedNext[i] == added[i];
        if e.dst in queue && e.dst != n {
          var k :| 0 <= k < |queue| && queue[k] == e.dst;
          assert queue'[k - 1] == e.dst;
        }
      }
    }
    ReachableConsumers(g, c, visited, start, n, rest, queue');
  }

  /** Visiting `n`, whose name is new, keeps the search's names distinct
      and accounted for. */
  lemma ExploreVisit(g: GraphValue, c: string, n: NodeId, visited: set<string>, added: seq<NodeId>)
    requires n in g.nodes && InCluster(g, added, c) && DistinctNames(g, added)
    requires g.nodes[n].name !in visited + NamesOf(g, added)
    ensures DistinctNames(g, added + [n])
    ensures NamesOf(g, added + [n]) == NamesOf(g, added) + {g.nodes[n].name}
  {
    assert (added + [n])[..|added|] == added;
    forall i | 0 <= i < |added|
      ensures g.nodes[added[i]].name != g.nodes[n].name
    {
      NamesOfMember(g, added, i);
    }
  }

  /** The consumers of a reachable node `n` pushed behind `rest` are each
      visited already or reachable themselves. */
  lemma ReachableConsumers(g: GraphValue, c: string, visited: set<string>, start: NodeId, n: NodeId,
                           rest: seq<NodeId>, queue: seq<NodeId>)
    requires ReachableWithin(g, c, visited, start, n) && InCluster(g, rest, c)
    requires forall i :: 0 <= i < |rest| ==>
      g.nodes[rest[i]].name in visited || ReachableWithin(g, c, visited, start, rest[i])
    requires |rest| <= |queue| && queue[..|rest|] == rest
    requires InCluster(g, queue[|rest|..], c)
    requires forall i :: |rest| <= i < |queue| ==> Consumes(g, n, queue[i])
    ensures forall i :: 0 <= i < |queue| ==>
      g.nodes[queue[i]].name in visited || ReachableWithin(g, c, visited, start, queue[i])
  {
    forall i | 0 <= i < |queue|
      ensures g.nodes[queue[i]].name in visited || ReachableWithin(g, c, visited, start, queue[i])
    {
      if i < |rest| {
        assert queue[i] == rest[i];
      } else {
        assert queue[i] == queue[|rest|..][i - |rest|];
        if g.nodes[queue[i]].name !in visited {
          ReachableStep(g, c, visited, start, n, queue[i]);
        }
      }
    }
  }

  /** `n` is reachable from some clustered consumer of `src`, through that
      consumer's cluster, without passing a node named in `avoid`. */
  ghost predicate ReachedFrom(g: GraphValue, src: NodeId, avoid: set<string>, n: NodeId)
    requires WellFormed(g)
  {
    exists e :: e in g.edges && e.src == src && g.nodes[e.dst].cluster.Some? &&
      ReachableWithin(g, g.nodes[e.dst].cluster.value, avoid, e.dst, n)
  }

  /** What the searches from `src`'s consumers have found so far: the
      nodes `added`, each reached from a consumer of `src` without passing
      a name in `visited`, each under a distinct name; `visited'` is
      `visited` with exactly those names added, and holds every
      same-cluster consumer of an added node. */
  ghost predicate Found(g: GraphValue, src: NodeId, visited: set<string>, visited': set<string>,
                        added: seq<NodeId>)
    requires WellFormed(g)
  {
    && (forall i :: 0 <= i < |added| ==> added[i] in g.nodes && ReachedFrom(g, src, visited, added[i]))
    && DistinctNames(g, added)
    && NamesOf(g, added) !! visited && visited' == visited + NamesOf(g, added)
    && Closed(g, added, visited')
  }

  /** `PopulateReachableDynamicNodes`: from every consumer of `src` that
      lies in a cluster, the search adds the nodes of that cluster reachable
      through it whose names were not yet visited.  Visited names only
      accumulate, and every clustered consumer of `src` ends up visited.
      The added nodes are exactly those reachable from a clustered consumer
      through its cluster without passing a name visited before (with
      unique names; without them, no more than those). */
  method PopulateReachableDynamicNodes(g: GraphValue, src: NodeId, visited: set<string>,
                                       candidates: seq<NodeId>)
    returns (status: Status, visited': set<string>, candidates': seq<NodeId>)
    requires WellFormed(g)
    ensures status == Ok
    ensures visited <= visited'
    ensures |candidates| <= |candidates'| && candidates'[..|candidates|] == candidates
    ensures Found(g, src, visited, visited', candidates'[|candidates|..])
    ensures forall e :: e in g.edges && e.src == src && g.nodes[e.dst].cluster.Some? ==>
      g.nodes[e.dst].name in visited'
    ensures UniqueNames(g) ==> forall e, n ::
      e in g.edges && e.src == src && g.nodes[e.dst].cluster.Some? &&
      ReachableWithin(g, g.nodes[e.dst].cluster.value, visited, e.dst, n)
      ==> n in candidates'[|candidates|..]
  {
    var outEdges := OutEdges(g, src);
    ghost var added: seq<NodeId> := [];
    visited', candidates' := visited, candidates;
    while outEdges != {}
      invariant outEdges <= OutEdges(g, src)
      invariant candidates' == candidates + added
      invariant Found(g, src, visited, visited', added)
      invariant forall e :: e in OutEdges(g, src) - outEdges && g.nodes[e.dst].cluster.Some? ==>
        g.nodes[e.dst].name in visited'
      decreases |outEdges|
    {
      var edge :| edge in outEdges;
      outEdges := outEdges - {edge};
      visited', candidates', added := SearchFromConsumer(g, src, edge, visited, added, visited', candidates, candidates');
    }
    assert candidates'[|candidates|..] == added;
    status := Ok;
    if UniqueNames(g) {
      forall e, n | e in g.edges && e.src == src && g.nodes[e.dst].cluster.Some? &&
                    ReachableWithin(g, g.nodes[e.dst].cluster.value, visited, e.dst, n)
        ensures n in added
      {
        var p :| PathWithin(g, g.nodes[e.dst].cluster.value, visited, p) && p[0] == e.dst && p[|p| - 1] == n;
        PathCovered(g, g.nodes[e.dst].cluster.value, visited, visited', added, p, |p| - 1);
      }
    }
  }

  /** The body of `PopulateReachableDynamicNodes`' loop for one out-edge of
      `src`: a consumer outside every cluster, or one whose name is
      already visited, starts no search. */
  method SearchFromConsumer(g: GraphValue, src: NodeId, edge: Edge,
                            ghost visited: set<string>, ghost added: seq<NodeId>,
                            visitedNow: set<string>, ghost candidates: seq<NodeId>, candidatesNow: seq<NodeId>)
    returns (visited': set<string>, candidates': seq<NodeId>, ghost added': seq<NodeId>)
    requires WellFormed(g) && edge in g.edges && edge.src == src
    requires Found(g, src, visited, visitedNow, added) && candidatesNow == candidates + added
    ensures Found(g, src, visited, visited', added') && candidates' == candidates + added'
    ensures visitedNow <= visited'
    ensures g.nodes[edge.dst].cluster.Some? ==> g.nodes[edge.dst].name in visited'
  {
    visited', candidates', added' := visitedNow, candidatesNow, added;
    var consumerCluster := g.nodes[edge.dst].cluster;
    if consumerCluster.None? {
      return;
    }
    if g.nodes[edge.dst].name in visitedNow {
      return;
    }
    visited', candidates' := Explore(g, consumerCluster.value, edge.dst, visitedNow, candidatesNow);
    ghost var more := candidates'[|candidatesNow|..];
    assert candidates' == candidatesNow + more;
    ExploreExtends(g, src, edge, visited, visitedNow, visited', added, more);
    assert candidates + (added + more) == candidatesNow + more;
    added' := added + more;
  }

  /** The nodes one search adds extend what the earlier searches found
      without breaking any of its properties. */
  lemma ExploreExtends(g: GraphValue, src: NodeId, edge: Edge, visited: set<string>,
                       visitedBefore: set<string>, visitedAfter: set<string>,
                       added: seq<NodeId>, more: seq<NodeId>)
    requires WellFormed(g) && edge in g.edges && edge.src == src && g.nodes[edge.dst].cluster.Some?
    requires Found(g, src, visited, visitedBefore, added)
    requires InCluster(g, more, g.nodes[edge.dst].cluster.value) && DistinctNames(g, more)
    requires forall i :: 0 <= i < |more| ==>
      ReachableWithin(g, g.nodes[edge.dst].cluster.value, visitedBefore, edge.dst, more[i])
    requires NamesOf(g, more) !! visitedBefore && visitedAfter == visitedBefore + NamesOf(g, more)
    requires Closed(g, more, visitedAfter)
    ensures Found(g, src, visited, visitedAfter, added + more)
  {
    NamesOfAppend(g, added, more);
    AppendReached(g, src, edge, visited, visitedBefore, added, more);
    AppendDistinct(g, added, more);
    AppendClosed(g, added, more, visitedBefore, visitedAfter);
  }

  lemma AppendReached(g: GraphValue, src: NodeId, edge: Edge, visited: set<string>,
                      visitedBefore: set<string>, added: seq<NodeId>, more: seq<NodeId>)
    requires WellFormed(g) && edge in g.edges && edge.src == src && g.nodes[edge.dst].cluster.Some?
    requires visited <= visitedBefore
    requires forall i :: 0 <= i < |added| ==> added[i] in g.nodes && ReachedFrom(g, src, visited, added[i])
    requires InCluster(g, more, g.nodes[edge.dst].cluster.value)
    requires forall i :: 0 <= i < |more| ==>
      ReachableWithin(g, g.nodes[edge.dst].cluster.value, visitedBefore, edge.dst, more[i])
    ensures forall i :: 0 <= i < |added + more| ==>
      (added + more)[i] in g.nodes && ReachedFrom(g, src, visited, (added + more)[i])
  {
    var all := added + more;
    forall i | 0 <= i < |all|
      ensures all[i] in g.nodes && ReachedFrom(g, src, visited, all[i])
    {
      if i >= |added| {
        assert all[i] == more[i - |added|];
        ReachableAvoidingFewer(g, g.nodes[edge.dst].cluster.value, visitedBefore, visited, edge.dst, all[i]);
      }
    }
  }

  lemma AppendDistinct(g: GraphValue, added: seq<NodeId>, more: seq<NodeId>)
    requires forall i :: 0 <= i < |added| ==> added[i] in g.nodes
    requires forall i :: 0 <= i < |more| ==> more[i] in g.nodes
    requires DistinctNames(g, added) && DistinctNames(g, more) && NamesOf(g, added) !! NamesOf(g, more)
    ensures DistinctNames(g, added + more)
  {
    var all := added + more;
    forall i, j | 0 <= i < j < |all|
      ensures g.nodes[all[i]].name != g.nodes[all[j]].name
    {
      if j >= |added| {
        assert all[j] == more[j - |added|];
        if i < |added| {
          NamesOfMember(g, added, i);
          NamesOfMember(g, more, j - |added|);
        } else {
          assert all[i] == more[i - |added|];
        }
      }
    }
  }

  lemma AppendClosed(g: GraphValue, added: seq<NodeId>, more: seq<NodeId>,
                     visitedBefore: set<string>, visitedAfter: set<string>)
    requires WellFormed(g)
    requires forall i :: 0 <= i < |added| ==> added[i] in g.nodes
    requires forall i :: 0 <= i < |more| ==> more[i] in g.nodes
    requires Closed(g, added, visitedBefore) && Closed(g, more, visitedAfter)
    requires visitedBefore <= visitedAfter
    ensures Closed(g, added + more, visitedAfter)
  {
    var all := added + more;
    forall i, e | 0 <= i < |all| && e in g.edges && e.src == all[i] &&
                  g.nodes[e.dst].cluster == g.nodes[all[i]].cluster
      ensures g.nodes[e.dst].name in visitedAfter
    {
      if i >= |added| {
        assert all[i] == more[i - |added|];
      }
    }
  }

  /** The blacklisted node `b` feeds a cluster other than its own (or,
      outside every cluster, feeds some cluster): it sits on a cluster's
      edge. */
  predicate OnClusterEdge(g: GraphValue, b: NodeId)
    requires WellFormed(g) && b in g.nodes
  {
    exists e :: e in g.edges && e.src == b && g.nodes[e.dst].cluster.Some? &&
      g.nodes[e.dst].cluster != g.nodes[b].cluster
  }

  /** A node the dynamic-op search may report: some blacklisted op on a
      cluster's edge has a clustered consumer from which the node is
      reachable through that consumer's cluster. */
  ghost predicate PossiblyDynamic(g: GraphValue, blacklistedOps: set<string>, n: NodeId)
    requires WellFormed(g) && n in g.nodes
  {
    exists b :: b in g.nodes && g.nodes[b].op in blacklistedOps && OnClusterEdge(g, b) &&
      ReachedFrom(g, b, {}, n)
  }

  /** The loop over `b_node->out_edges()` that decides whether `b` is on
      a cluster's edge; it stops at the first such edge. */
  method IsNodeBlacklisted(g: GraphValue, b: NodeId) returns (isNodeBlacklisted: bool)
    requires WellFormed(g) && b in g.nodes
    ensures isNodeBlacklisted <==> OnClusterEdge(g, b)
  {
    var outEdges := OutEdges(g, b);
    isNodeBlacklisted := false;
    var incomingCluster := g.nodes[b].cluster;
    while outEdges != {}
      invariant outEdges <= OutEdges(g, b)
      invariant forall e :: e in OutEdges(g, b) - outEdges ==>
        !(g.nodes[e.dst].cluster.Some? && g.nodes[e.dst].cluster != incomingCluster)
      decreases |outEdges|
    {
      var edge :| edge in outEdges;
      outEdges := outEdges - {edge};
      var consumerCluster := g.nodes[edge.dst].cluster;
      if consumerCluster.None? {
        continue;
      }
      if incomingCluster.None? || incomingCluster.value != consumerCluster.value {
        isNodeBlacklisted := true;
        break;
      }
    }
  }

  /** `opNodes[i]` is a blacklisted op on a cluster's edge whose name the
      loop of `PopulatePossibleDynamicNodes` has not met before. */
  predicate IsSeedAt(g: GraphValue, blacklistedOps: set<string>, opNodes: seq<NodeId>, i: nat)
    requires WellFormed(g) && i < |opNodes|
    requires forall j :: 0 <= j < |opNodes| ==> opNodes[j] in g.nodes
  {
    && g.nodes[opNodes[i]].op in blacklistedOps && OnClusterEdge(g, opNodes[i])
    && g.nodes[opNodes[i]].name !in NamesOf(g, opNodes[..i])
  }

  /** Every node reachable from a clustered consumer of `opNodes[i]`
      through that consumer's cluster, without passing a node the loop has
      met up to `opNodes[i]`, is among `candidates`. */
  ghost predicate SeedCovered(g: GraphValue, opNodes: seq<NodeId>, i: nat, candidates: seq<NodeId>)
    requires WellFormed(g) && i < |opNodes|
    requires forall j :: 0 <= j < |opNodes| ==> opNodes[j] in g.nodes
  {
    forall e, n :: e in g.edges && e.src == opNodes[i] && g.nodes[e.dst].cluster.Some? &&
      ReachableWithin(g, g.nodes[e.dst].cluster.value, NamesOf(g, opNodes[..i + 1]), e.dst, n)
      ==> n in candidates
  }

  /** What `PopulatePossibleDynamicNodes` reports when the graph's op
      nodes come in the order `opNodes`: possibly dynamic nodes under
      distinct names and, with unique names, everything reachable from
      each seed's clustered consumers past the nodes the loop met before
      it.  A seed that an earlier search reported is skipped by the loop,
      so the last clause leaves it out. */
  ghost predicate Reported(g: GraphValue, opNodes: seq<NodeId>, config: string, candidates: seq<NodeId>)
    requires WellFormed(g)
    requires forall j :: 0 <= j < |opNodes| ==> opNodes[j] in g.nodes
  {
    && (forall j :: 0 <= j < |candidates| ==>
          candidates[j] in g.nodes && PossiblyDynamic(g, BlacklistedOps(config), candidates[j]))
    && DistinctNames(g, candidates)
    && SeedsCovered(g, BlacklistedOps(config), opNodes, |opNodes|, candidates)
  }

  /** With unique names, each seed among the first `n` op nodes that no
      search reported is covered. */
  ghost predicate SeedsCovered(g: GraphValue, blacklistedOps: set<string>, opNodes: seq<NodeId>, n: nat,
                               candidates: seq<NodeId>)
    requires WellFormed(g) && n <= |opNodes|
    requires forall j :: 0 <= j < |opNodes| ==> opNodes[j] in g.nodes
  {
    UniqueNames(g) ==>
      forall i | 0 <= i < n && IsSeedAt(g, blacklistedOps, opNodes, i) && opNodes[i] !in candidates ::
        SeedCovered(g, opNodes, i, candidates)
  }

  /** `PopulatePossibleDynamicNodes`: over `op_nodes()`, every blacklisted
      op on a cluster's edge seeds `PopulateReachableDynamicNodes`, all
      sharing one `visited` set, which the loop also fills with the names
      of the op nodes it meets. */
  method PopulatePossibleDynamicNodes(g: GraphValue, opNodes: seq<NodeId>, config: string)
    returns (status: Status, candidates: seq<NodeId>)
    requires WellFormed(g)
    requires forall i :: 0 <= i < |opNodes| ==> opNodes[i] in g.nodes
    ensures status == Ok
    ensures Reported(g, opNodes, config, candidates)
  {
    var visited: set<string> := {};
    candidates := [];
    var blacklistedOps := GetBlacklistedDynamicOps(config);
    for i := 0 to |opNodes|
      invariant Populating(g, blacklistedOps, opNodes, i, visited, candidates)
    {
      var bNode := opNodes[i];
      if g.nodes[bNode].name in visited {
        PopulateSkip(g, blacklistedOps, opNodes, i, visited, candidates);
        continue;
      }
      PopulateMeet(g, blacklistedOps, opNodes, i, visited, candidates);
      visited := visited + {g.nodes[bNode].name};
      if g.nodes[bNode].op !in blacklistedOps {
        continue;
      }
      var isNodeBlacklisted := IsNodeBlacklisted(g, bNode);
      if !isNodeBlacklisted {
        continue;
      }
      var before := candidates;
      ghost var visitedMet := visited;
      var reachable;
      reachable, visited, candidates := PopulateReachableDynamicNodes(g, bNode, visited, candidates);
      ghost var added := candidates[|before|..];
      assert candidates == before + added;
      PopulateSearch(g, blacklistedOps, opNodes, i, visitedMet, visited, before, added);
    }
    assert opNodes[..|opNodes|] == opNodes;
    status := Ok;
  }

  /** The invariant of `PopulatePossibleDynamicNodes`' loop after `i` op
      nodes: the report so far is possibly dynamic, under distinct names
      and closed; the visited names are those of the op nodes met and of
      the nodes reported; the seeds met so far are covered. */
  ghost predicate Populating(g: GraphValue, blacklistedOps: set<string>, opNodes: seq<NodeId>, i: nat,
                             visited: set<string>, candidates: seq<NodeId>)
    requires WellFormed(g) && i <= |opNodes|
    requires forall j :: 0 <= j < |opNodes| ==> opNodes[j] in g.nodes
  {
    && (forall j :: 0 <= j < |candidates| ==>
          candidates[j] in g.nodes && PossiblyDynamic(g, blacklistedOps, candidates[j]))
    && DistinctNames(g, candidates)
    && visited == NamesOf(g, opNodes[..i]) + NamesOf(g, candidates)
    && Closed(g, candidates, visited)
    && SeedsCovered(g, blacklistedOps, opNodes, i, candidates)
  }

  /** An op node whose name was visited is no seed, or an earlier search
      reported it: skipping it keeps the invariant. */
  lemma PopulateSkip(g: GraphValue, blacklistedOps: set<string>, opNodes: seq<NodeId>, i: nat,
                     visited: set<string>, candidates: seq<NodeId>)
    requires WellFormed(g) && i < |opNodes|
    requires forall j :: 0 <= j < |opNodes| ==> opNodes[j] in g.nodes
    requires Populating(g, blacklistedOps, opNodes, i, visited, candidates)
    requires g.nodes[opNodes[i]].name in visited
    ensures Populating(g, blacklistedOps, opNodes, i + 1, visited, candidates)
  {
    assert opNodes[..i + 1][..i] == opNodes[..i];
    if UniqueNames(g) && IsSeedAt(g, blacklistedOps, opNodes, i) {
      NamedIn(g, candidates, opNodes[i]);
    }
  }

  /** Meeting an op node under a new name adds that name to the visited
      ones; when the node is no seed, that is all the iteration does. */
  lemma PopulateMeet(g: GraphValue, blacklistedOps: set<string>, opNodes: seq<NodeId>, i: nat,
                     visited: set<string>, candidates: seq<NodeId>)
    requires WellFormed(g) && i < |opNodes|
    requires forall j :: 0 <= j < |opNodes| ==> opNodes[j] in g.nodes
    requires Populating(g, blacklistedOps, opNodes, i, visited, candidates)
    requires g.nodes[opNodes[i]].name !in visited
    ensures visited + {g.nodes[opNodes[i]].name} == NamesOf(g, opNodes[..i + 1]) + NamesOf(g, candidates)
    ensures Closed(g, candidates, visited + {g.nodes[opNodes[i]].name})
    ensures !(g.nodes[opNodes[i]].op in blacklistedOps && OnClusterEdge(g, opNodes[i])) ==>
      Populating(g, blacklistedOps, opNodes, i + 1, visited + {g.nodes[opNodes[i]].name}, candidates)
  {
    assert opNodes[..i + 1][..i] == opNodes[..i];
  }

  /** The search from the seed `opNodes[i]` keeps the invariant and covers
      the seed. */
  lemma PopulateSearch(g: GraphValue, blacklistedOps: set<string>, opNodes: seq<NodeId>, i: nat,
                       visited: set<string>, visited': set<string>,
                       candidates: seq<NodeId>, added: seq<NodeId>)
    requires WellFormed(g) && i < |opNodes|
    requires forall j :: 0 <= j < |opNodes| ==> opNodes[j] in g.nodes
    requires g.nodes[opNodes[i]].op in blacklistedOps && OnClusterEdge(g, opNodes[i])
    requires forall j :: 0 <= j < |candidates| ==>
      candidates[j] in g.nodes && PossiblyDynamic(g, blacklistedOps, candidates[j])
    requires DistinctNames(g, candidates)
    requires visited == NamesOf(g, opNodes[..i + 1]) + NamesOf(g, candidates) && Closed(g, candidates, visited)
    requires SeedsCovered(g, blacklistedOps, opNodes, i, candidates)
    requires Found(g, opNodes[i], visited, visited', added)
    requires forall e :: e in g.edges && e.src == opNodes[i] && g.nodes[e.dst].cluster.Some? ==>
      g.nodes[e.dst].name in visited'
    ensures Populating(g, blacklistedOps, opNodes, i + 1, visited', candidates + added)
  {
    var all := candidates + added;
    SeedExtends(g, blacklistedOps, opNodes[i], NamesOf(g, opNodes[..i + 1]), visited, visited', candidates, added);
    if UniqueNames(g) {
      forall j | 0 <= j < i + 1 && IsSeedAt(g, blacklistedOps, opNodes, j) && opNodes[j] !in all
        ensures SeedCovered(g, opNodes, j, all)
      {
        if j < i {
          SeedCoveredGrows(g, opNodes, j, candidates, added);
        } else {
          SeedCoveredBySearch(g, opNodes, i, visited', all);
        }
      }
    }
  }

  /** What one seed's search adds keeps the report possibly dynamic, free
      of repeated names and closed, with the visited names those of the
      nodes met and reported. */
  lemma SeedExtends(g: GraphValue, blacklistedOps: set<string>, b: NodeId, met: set<string>,
                    visited: set<string>, visited': set<string>,
                    candidates: seq<NodeId>, added: seq<NodeId>)
    requires WellFormed(g) && b in g.nodes && g.nodes[b].op in blacklistedOps && OnClusterEdge(g, b)
    requires forall j :: 0 <= j < |candidates| ==>
      candidates[j] in g.nodes && PossiblyDynamic(g, blacklistedOps, candidates[j])
    requires DistinctNames(g, candidates)
    requires visited == met + NamesOf(g, candidates) && Closed(g, candidates, visited)
    requires Found(g, b, visited, visited', added)
    ensures forall j :: 0 <= j < |candidates + added| ==>
      (candidates + added)[j] in g.nodes && PossiblyDynamic(g, blacklistedOps, (candidates + added)[j])
    ensures DistinctNames(g, candidates + added)
    ensures visited' == met + NamesOf(g, candidates + added) && Closed(g, candidates + added, visited')
  {
    var all := candidates + added;
    forall j | 0 <= j < |all|
      ensures all[j] in g.nodes && PossiblyDynamic(g, blacklistedOps, all[j])
    {
      if j >= |candidates| {
        assert all[j] == added[j - |candidates|];
        var e :| e in g.edges && e.src == b && g.nodes[e.dst].cluster.Some? &&
          ReachableWithin(g, g.nodes[e.dst].cluster.value, visited, e.dst, all[j]);
        ReachableAvoidingFewer(g, g.nodes[e.dst].cluster.value, visited, {}, e.dst, all[j]);
        assert ReachedFrom(g, b, {}, all[j]);
      }
    }
    NamesOfAppend(g, candidates, added);
    AppendDistinct(g, candidates, added);
    AppendClosed(g, candidates, added, visited, visited');
  }

  /** Reporting more keeps a seed covered. */
  lemma SeedCoveredGrows(g: GraphValue, opNodes: seq<NodeId>, i: nat, candidates: seq<NodeId>, more: seq<NodeId>)
    requires WellFormed(g) && i < |opNodes|
    requires forall j :: 0 <= j < |opNodes| ==> opNodes[j] in g.nodes
    requires SeedCovered(g, opNodes, i, candidates)
    ensures SeedCovered(g, opNodes, i, candidates + more)
  {
    forall e, n | e in g.edges && e.src == opNodes[i] && g.nodes[e.dst].cluster.Some? &&
                  ReachableWithin(g, g.nodes[e.dst].cluster.value, NamesOf(g, opNodes[..i + 1]), e.dst, n)
      ensures n in candidates + more
    {
      assert n in candidates;
    }
  }

  /** Once the names visited are those met up to the seed `opNodes[i]` and
      those reported, the report is closed and every clustered consumer of
      the seed is visited, the seed is covered. */
  lemma SeedCoveredBySearch(g: GraphValue, opNodes: seq<NodeId>, i: nat, visited: set<string>,
                            candidates: seq<NodeId>)
    requires WellFormed(g) && UniqueNames(g) && i < |opNodes|
    requires forall j :: 0 <= j < |opNodes| ==> opNodes[j] in g.nodes
    requires forall j :: 0 <= j < |candidates| ==> candidates[j] in g.nodes
    requires visited == NamesOf(g, opNodes[..i + 1]) + NamesOf(g, candidates) && Closed(g, candidates, visited)
    requires forall e :: e in g.edges && e.src == opNodes[i] && g.nodes[e.dst].cluster.Some? ==>
      g.nodes[e.dst].name in visited
    ensures SeedCovered(g, opNodes, i, candidates)
  {
    var met := NamesOf(g, opNodes[..i + 1]);
    forall e, n | e in g.edges && e.src == opNodes[i] && g.nodes[e.dst].cluster.Some? &&
                  ReachableWithin(g, g.nodes[e.dst].cluster.value, met, e.dst, n)
      ensures n in candidates
    {
      var c := g.nodes[e.dst].cluster.value;
      var p :| PathWithin(g, c, met, p) && p[0] == e.dst && p[|p| - 1] == n;
      PathCovered(g, c, met, visited, candidates, p, |p| - 1);
    }
  }

  /** `decluster_possible_dynamic_ops::PartiallyDeclusterGraph`: the nodes
      `PopulatePossibleDynamicNodes` reports, `candidates`, are taken out of
      their clusters in reverse post order, and nothing else changes. */
  method PartiallyDeclusterGraph(graph: Graph, opNodesOf: GraphValue -> seq<NodeId>,
                                 reversePostOrderOf: GraphValue -> seq<NodeId>, config: string)
    returns (status: Status, ghost candidates: seq<NodeId>)
    requires WellFormed(graph.Value())
    requires forall h :: WellFormed(h) ==> IsNodeOrder(h, opNodesOf(h))
    requires forall h :: WellFormed(h) ==> IsNodeOrder(h, reversePostOrderOf(h))
    modifies graph
    ensures status == Ok
    ensures var g := old(graph.Value());
      IsNodeOrder(g, opNodesOf(g)) && Reported(g, opNodesOf(g), config, candidates)
    ensures graph.Value() == WithoutClusters(old(graph.Value()), set n | n in candidates)
  {
    ghost var g := graph.Value();
    var opNodes := opNodesOf(graph.Value());
    assert IsNodeOrder(g, opNodes);
    var populated, candidateDynamicNodes := PopulatePossibleDynamicNodes(graph.Value(), opNodes, config);
    candidates := candidateDynamicNodes;
    var rpo := reversePostOrderOf(graph.Value());
    assert IsNodeOrder(g, rpo);
    ghost var declustered: set<NodeId> := {};
    for i := 0 to |rpo|
      invariant graph.Value() == WithoutClusters(g, declustered)
      invariant forall n :: n in declustered <==> n in rpo[..i] && n in candidateDynamicNodes
    {
      var node := rpo[i];
      assert rpo[..i + 1] == rpo[..i] + [node];
      if node in candidateDynamicNodes {
        WithoutClustersAddOne(g, declustered, node);
        graph.RemoveFromXlaCluster(node);
        declustered := declustered + {node};
      }
    }
    assert rpo[..|rpo|] == rpo;
    assert declustered == set n | n in candidates;
    status := Ok;
  }
}
