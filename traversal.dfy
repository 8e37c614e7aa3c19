/**
 * Drawing the dependency graph: a depth-first walk from the start file that
 * writes one Graphviz edge line `  "p" -> "q"` each time it meets a file it
 * has not visited yet, and the `digraph { ... }` frame around those lines.
 *
 * The output stream is modelled as the string written so far. Besides it the
 * walk returns, as ghost results, the edges it wrote (in order), the files it
 * visited and the order of their first visit; the contracts relate these to
 * reachability in the graph.
 */
module Traversal {
  import opened SymbolIndex
  import opened DependencyGraph

  type Edge = (FileName, FileName)

  // ---------------------------------------------------------------------
  // Reachability

  /** `p` is a walk along the graph's edges, each step leaving a listed file. */
  ghost predicate IsPath(g: Graph, p: seq<FileName>)
  {
    |p| >= 1 && forall i :: 0 <= i < |p| - 1 ==> p[i] in g && p[i + 1] in g[p[i]]
  }

  ghost predicate Reaches(g: Graph, a: FileName, b: FileName)
  {
    exists p :: IsPath(g, p) && p[0] == a && p[|p| - 1] == b
  }

  /**
   * What the walk demands of its graph: every file it can reach from the
   * root has an entry (the walk looks up `graph[cur]` for each file it pops).
   */
  ghost predicate ReachableAreKeys(g: Graph, root: FileName)
  {
    forall v :: Reaches(g, root, v) ==> v in g
  }

  lemma ReachesSelf(g: Graph, a: FileName)
    ensures Reaches(g, a, a)
  {
    assert IsPath(g, [a]);
  }

  lemma ReachesStep(g: Graph, a: FileName, b: FileName, c: FileName)
    requires Reaches(g, a, b) && b in g && c in g[b]
    ensures Reaches(g, a, c)
  {
    var p :| IsPath(g, p) && p[0] == a && p[|p| - 1] == b;
    var q := p + [c];
    forall i | 0 <= i < |q| - 1
      ensures q[i] in g && q[i + 1] in g[q[i]]
    {
      if i < |p| - 1 {
        assert q[i] == p[i] && q[i + 1] == p[i + 1];
      } else {
        assert q[i] == b && q[i + 1] == c;
      }
    }
    assert IsPath(g, q) && q[0] == a && q[|q| - 1] == c;
  }

  /** A set that is closed under the graph's edges holds every end of a path starting in it. */
  lemma {:induction false} PathStaysIn(g: Graph, s: set<FileName>, p: seq<FileName>)
    requires IsPath(g, p) && p[0] in s
    requires forall v, w :: v in s && v in g && w in g[v] ==> w in s
    ensures p[|p| - 1] in s
  {
    if |p| > 1 {
      var q := p[..|p| - 1];
      assert IsPath(g, q) by {
        forall i | 0 <= i < |q| - 1
          ensures q[i] in g && q[i + 1] in g[q[i]]
        {
          assert q[i] == p[i] && q[i + 1] == p[i + 1];
        }
      }
      PathStaysIn(g, s, q);
      assert p[|p| - 2] == q[|q| - 1];
    }
  }

  // ---------------------------------------------------------------------
  // Names and text

  predicate EndsWith(s: string, t: string)
  {
    |t| <= |s| && s[|s| - |t|..] == t
  }

  /** `s.removesuffix(t)`: `s` without a trailing `t`, or `s` itself. */
  function RemoveSuffix(s: string, t: string): (r: string)
    ensures t != [] && EndsWith(s, t) ==> r + t == s
    ensures !(t != [] && EndsWith(s, t)) ==> r == s
  {
    if t != [] && EndsWith(s, t) then s[..|s| - |t|] else s
  }

  /** Removing a suffix that was appended gives back the name. */
  lemma RemoveSuffixOfAppend(s: string, t: string)
    requires t != []
    ensures RemoveSuffix(s + t, t) == s
  {
    assert (s + t)[|s + t| - |t|..] == t;
    assert (s + t)[..|s|] == s;
  }

  /** The suffix dropped from every displayed name, picked from the start file's name. */
  function DisplaySuffix(root: FileName): string
  {
    if EndsWith(root, ".o") then ".o" else ".lo"
  }

  /**
   * How names are displayed: with an `.o` start file `bar.o` shows as `bar`,
   * while `bar.lo` and the archive-member style `libfoo.a(bar.o)` keep their
   * whole name; with an `.lo` start file `bar.lo` shows as `bar`.
   */
  lemma DisplayNames()
    ensures DisplaySuffix("main.o") == ".o" && DisplaySuffix("main.lo") == ".lo"
    ensures RemoveSuffix("bar.o", ".o") == "bar"
    ensures RemoveSuffix("bar.lo", ".o") == "bar.lo"
    ensures RemoveSuffix("libfoo.a(bar.o)", ".o") == "libfoo.a(bar.o)"
    ensures RemoveSuffix("bar.lo", ".lo") == "bar"
  {
    assert "main.o"[4..] == ".o" && "main.lo"[5..] != ".o";
    assert "bar.o"[3..] == ".o" && "bar.o"[..3] == "bar";
    assert "bar.lo"[4..] != ".o";
    assert "libfoo.a(bar.o)"[13..] != ".o";
    assert "bar.lo"[3..] == ".lo" && "bar.lo"[..3] == "bar";
  }

  /** The line written for the edge from display name `p` to display name `q`. */
  function EdgeLine(p: string, q: string): string
  {
    "  \"" + p + "\" -> \"" + q + "\"\n"
  }

  /**
   * Two names without a quote character are read back from their edge line:
   * different edges give different lines.
   */
  lemma EdgeLineInjective(p: string, q: string, p': string, q': string)
    requires '"' !in p && '"' !in q && '"' !in p' && '"' !in q'
    requires EdgeLine(p, q) == EdgeLine(p', q')
    ensures p == p' && q == q'
  {
    var l, l' := EdgeLine(p, q), EdgeLine(p', q');
    assert |l| == |p| + |q| + 11 && |l'| == |p'| + |q'| + 11;
    assert forall i :: 0 <= i < |p| ==> l[3 + i] == p[i];
    assert forall i :: 0 <= i < |p'| ==> l'[3 + i] == p'[i];
    assert l[3 + |p|] == '"' && l'[3 + |p'|] == '"';
    assert |p| == |p'|;
    assert p == p' by {
      forall i | 0 <= i < |p|
        ensures p[i] == p'[i]
      {
        assert l[3 + i] == l'[3 + i];
      }
    }
    assert |q| == |q'|;
    assert forall i :: 0 <= i < |q| ==> l[9 + |p| + i] == q[i];
    assert forall i :: 0 <= i < |q'| ==> l'[9 + |p'| + i] == q'[i];
  }

  /** The lines written for `edges`, in order, with `sfx` dropped from each name. */
  function Lines(sfx: string, edges: seq<Edge>): string
  {
    if edges == [] then ""
    else
      var e := edges[|edges| - 1];
      Lines(sfx, edges[..|edges| - 1]) + EdgeLine(RemoveSuffix(e.0, sfx), RemoveSuffix(e.1, sfx))
  }

  /** Writing one more edge appends its line to the text. */
  lemma LinesAppend(sfx: string, edges: seq<Edge>, e: Edge)
    ensures Lines(sfx, edges + [e]) == Lines(sfx, edges) + EdgeLine(RemoveSuffix(e.0, sfx), RemoveSuffix(e.1, sfx))
  {
    assert (edges + [e])[..|edges|] == edges;
  }

  const DotHeader: string := "digraph {\n  graph[splines=ortho]\n"
  const DotFooter: string := "}\n"

  // ---------------------------------------------------------------------
  // State of the walk

  /** The edges from `cur` to each of `targets`, in order. */
  function EdgesFrom(cur: FileName, targets: seq<FileName>): (es: seq<Edge>)
    ensures |es| == |targets|
    ensures forall j :: 0 <= j < |targets| ==> es[j] == (cur, targets[j])
  {
    seq(|targets|, j requires 0 <= j < |targets| => (cur, targets[j]))
  }

  ghost predicate Distinct<T>(s: seq<T>)
  {
    forall k, l :: 0 <= k < l < |s| ==> s[k] != s[l]
  }

  /** Some written edge ends at `v`. */
  ghost predicate HasInEdge(edges: seq<Edge>, v: FileName)
  {
    exists k :: 0 <= k < |edges| && edges[k].1 == v
  }

  lemma HasInEdgeGrow(edges: seq<Edge>, more: seq<Edge>, v: FileName)
    requires HasInEdge(edges, v)
    ensures HasInEdge(edges + more, v)
  {
    var k :| 0 <= k < |edges| && edges[k].1 == v;
    assert (edges + more)[k] == edges[k];
  }

  ghost predicate QueueReached(g: Graph, root: FileName, nodeq: seq<FileName>)
  {
    forall i :: 0 <= i < |nodeq| ==> Reaches(g, root, nodeq[i])
  }

  ghost predicate VisitedReached(g: Graph, root: FileName, visited: set<FileName>)
  {
    forall v :: v in visited ==> Reaches(g, root, v)
  }

  /** Either nothing has happened yet, or the root has been visited. */
  ghost predicate Started(root: FileName, nodeq: seq<FileName>, visited: set<FileName>, edges: seq<Edge>)
  {
    root in visited || (visited == {} && nodeq == [root] && edges == [])
  }

  /** Every neighbour of a visited file is visited or waiting on the stack. */
  ghost predicate Frontier(g: Graph, visited: set<FileName>, nodeq: seq<FileName>)
  {
    forall v, w :: v in visited && v in g && w in g[v] ==> w in visited || w in nodeq
  }

  /**
   * A visited file still on the stack has its unvisited neighbours above it,
   * so popping it again finds nothing new.
   */
  ghost predicate QueueOrder(g: Graph, visited: set<FileName>, nodeq: seq<FileName>)
  {
    forall i, w :: 0 <= i < |nodeq| && nodeq[i] in visited && nodeq[i] in g && w in g[nodeq[i]] ==>
      w in visited || w in nodeq[i + 1..]
  }

  /** Each written edge is an edge of the graph out of a visited file, and none enters the root. */
  ghost predicate EdgesOfGraph(g: Graph, root: FileName, visited: set<FileName>, edges: seq<Edge>)
  {
    forall k :: 0 <= k < |edges| ==>
      edges[k].0 in visited && edges[k].0 in g && edges[k].1 in g[edges[k].0] && edges[k].1 != root
  }

  ghost predicate TargetsPending(visited: set<FileName>, nodeq: seq<FileName>, edges: seq<Edge>)
  {
    forall k :: 0 <= k < |edges| ==> edges[k].1 in visited || edges[k].1 in nodeq
  }

  /** Every file other than the root that was visited or pushed has an edge drawn into it. */
  ghost predicate Covered(root: FileName, visited: set<FileName>, nodeq: seq<FileName>, edges: seq<Edge>)
  {
    (forall v :: v in visited && v != root ==> HasInEdge(edges, v)) &&
    (forall i :: 0 <= i < |nodeq| && nodeq[i] != root ==> HasInEdge(edges, nodeq[i]))
  }

  /**
   * `rank` numbers the visited files in the order of their first visit, and
   * every drawn edge whose target was visited goes from an earlier file to a
   * later one.
   */
  ghost predicate Ranked(visited: set<FileName>, edges: seq<Edge>, rank: map<FileName, nat>)
  {
    rank.Keys == visited &&
    (forall v :: v in visited ==> rank[v] < |visited|) &&
    (forall k :: 0 <= k < |edges| && edges[k].1 in visited ==>
       edges[k].0 in rank && rank[edges[k].0] < rank[edges[k].1])
  }

  /** No two visited files share a number, and the root, once visited, is number 0. */
  ghost predicate Numbered(root: FileName, rank: map<FileName, nat>)
  {
    (forall u, v :: u in rank && v in rank && u != v ==> rank[u] != rank[v]) &&
    (root in rank ==> rank[root] == 0)
  }

  /**
   * A visited file has an edge drawn to a neighbour exactly when that
   * neighbour was not yet visited when the file was first popped: it is
   * still unvisited, or it was visited later.
   */
  ghost predicate Complete(g: Graph, edges: seq<Edge>, rank: map<FileName, nat>)
  {
    forall p, q :: p in rank && p in g && q in g[p] ==>
      ((p, q) in edges <==> (q in rank ==> rank[p] < rank[q]))
  }

  /**
   * `rank` is a depth-first numbering: if a file `b` is visited after `a`
   * while a neighbour `c` of `a` is still waiting, and `b` is not itself a
   * neighbour of `a`, then `b` was reached from a file visited between them.
   * The stack keeps `a`'s pushes below everything pushed after `a`'s visit,
   * so nothing else can come first.
   */
  ghost predicate DepthFirst(g: Graph, rank: map<FileName, nat>)
  {
    forall a, b, c :: Waiting(g, rank, a, b, c) ==> ReachedBetween(g, rank, a, b)
  }

  /**
   * `b`, not a neighbour of `a`, was visited after `a` while `a`'s neighbour
   * `c` was still unvisited.
   */
  ghost predicate Waiting(g: Graph, rank: map<FileName, nat>, a: FileName, b: FileName, c: FileName)
  {
    a in rank && b in rank && a in g && c in g[a] && b !in g[a] &&
    rank[a] < rank[b] && (c !in rank || rank[b] < rank[c])
  }

  /** `b` is a neighbour of some file numbered after `a` and before `b`. */
  ghost predicate ReachedBetween(g: Graph, rank: map<FileName, nat>, a: FileName, b: FileName)
    requires a in rank && b in rank
  {
    exists d :: d in rank && d in g && b in g[d] && rank[a] < rank[d] < rank[b]
  }

  /**
   * `pushers[i]` is the visited file whose expansion pushed `nodeq[i]`. Their
   * numbers never decrease up the stack, and every unvisited neighbour of a
   * visited file is on the stack as pushed by that file.
   */
  ghost predicate PushedBy(g: Graph, nodeq: seq<FileName>, visited: set<FileName>,
                           rank: map<FileName, nat>, pushers: seq<FileName>)
  {
    |pushers| == |nodeq| &&
    (visited != {} ==> forall i :: 0 <= i < |nodeq| ==>
       pushers[i] in rank && pushers[i] in g && nodeq[i] in g[pushers[i]]) &&
    (forall i, j :: 0 <= i < j < |nodeq| && pushers[i] in rank && pushers[j] in rank ==>
       rank[pushers[i]] <= rank[pushers[j]]) &&
    (forall a, c :: a in visited && a in g && c in g[a] && c !in visited ==>
       exists i :: 0 <= i < |nodeq| && nodeq[i] == c && pushers[i] == a)
  }

  /** `n` copies of `x`: the pusher of each file an expansion pushes. */
  ghost function Repeat(x: FileName, n: nat): (s: seq<FileName>)
    ensures |s| == n && forall i :: 0 <= i < n ==> s[i] == x
  {
    seq(n, _ => x)
  }

  ghost predicate WalkInv(g: Graph, root: FileName, nodeq: seq<FileName>, visited: set<FileName>,
                          edges: seq<Edge>, rank: map<FileName, nat>, pushers: seq<FileName>)
  {
    QueueReached(g, root, nodeq) && VisitedReached(g, root, visited) &&
    Started(root, nodeq, visited, edges) && Frontier(g, visited, nodeq) &&
    QueueOrder(g, visited, nodeq) && EdgesOfGraph(g, root, visited, edges) &&
    TargetsPending(visited, nodeq, edges) && Distinct(edges) &&
    Covered(root, visited, nodeq, edges) && Ranked(visited, edges, rank) &&
    Numbered(root, rank) && Complete(g, edges, rank) &&
    PushedBy(g, nodeq, visited, rank, pushers) && DepthFirst(g, rank)
  }

  /** One iteration: the top file `cur` is popped and marked visited. */
  ghost predicate Popped(nodeq: seq<FileName>, visited: set<FileName>, rank: map<FileName, nat>,
                         cur: FileName, rest: seq<FileName>, visited': set<FileName>, rank': map<FileName, nat>)
  {
    nodeq != [] && cur == nodeq[|nodeq| - 1] && rest == nodeq[..|nodeq| - 1] &&
    visited' == visited + {cur} &&
    rank' == (if cur in visited then rank else rank[cur := |visited|])
  }

  /** ... and its unvisited neighbours `added` are drawn and pushed. */
  ghost predicate Pushed(g: Graph, cur: FileName, visited': set<FileName>, rest: seq<FileName>, edges: seq<Edge>,
                         added: seq<FileName>, nodeq': seq<FileName>, edges': seq<Edge>)
  {
    cur in g && nodeq' == rest + added && edges' == edges + EdgesFrom(cur, added) &&
    (forall n :: n in added <==> n in g[cur] && n !in visited') && Distinct(added)
  }

  // ---------------------------------------------------------------------
  // The invariant is kept by one iteration

  lemma HeadIsMember(s: seq<FileName>)
    requires s != []
    ensures s[0] in s
  {
  }

  /** Popping a file that was already visited pushes and draws nothing. */
  lemma RevisitAddsNothing(g: Graph, root: FileName, nodeq: seq<FileName>, visited: set<FileName>,
                           edges: seq<Edge>, rank: map<FileName, nat>, cur: FileName, rest: seq<FileName>,
                           visited': set<FileName>, rank': map<FileName, nat>,
                           added: seq<FileName>, nodeq': seq<FileName>, edges': seq<Edge>)
    requires QueueOrder(g, visited, nodeq)
    requires Popped(nodeq, visited, rank, cur, rest, visited', rank')
    requires Pushed(g, cur, visited', rest, edges, added, nodeq', edges')
    requires cur in visited
    ensures added == []
  {
    var i := |nodeq| - 1;
    assert nodeq[i + 1..] == [];
    if added != [] {
      HeadIsMember(added);
      assert false;
    }
  }

  lemma StepReached(g: Graph, root: FileName, nodeq: seq<FileName>, visited: set<FileName>,
                    edges: seq<Edge>, rank: map<FileName, nat>, cur: FileName, rest: seq<FileName>,
                    visited': set<FileName>, rank': map<FileName, nat>,
                    added: seq<FileName>, nodeq': seq<FileName>, edges': seq<Edge>)
    requires QueueReached(g, root, nodeq) && VisitedReached(g, root, visited)
    requires Popped(nodeq, visited, rank, cur, rest, visited', rank')
    requires Pushed(g, cur, visited', rest, edges, added, nodeq', edges')
    ensures QueueReached(g, root, nodeq') && VisitedReached(g, root, visited')
  {
    assert Reaches(g, root, nodeq[|nodeq| - 1]);
    forall i | 0 <= i < |nodeq'|
      ensures Reaches(g, root, nodeq'[i])
    {
      if i < |rest| {
        assert nodeq'[i] == nodeq[i];
      } else {
        assert nodeq'[i] in added;
        ReachesStep(g, root, cur, nodeq'[i]);
      }
    }
  }

  lemma StepFrontier(g: Graph, root: FileName, nodeq: seq<FileName>, visited: set<FileName>,
                     edges: seq<Edge>, rank: map<FileName, nat>, cur: FileName, rest: seq<FileName>,
                     visited': set<FileName>, rank': map<FileName, nat>,
                     added: seq<FileName>, nodeq': seq<FileName>, edges': seq<Edge>)
    requires Started(root, nodeq, visited, edges) && Frontier(g, visited, nodeq)
    requires Popped(nodeq, visited, rank, cur, rest, visited', rank')
    requires Pushed(g, cur, visited', rest, edges, added, nodeq', edges')
    ensures Started(root, nodeq', visited', edges') && Frontier(g, visited', nodeq')
  {
    assert nodeq == rest + [cur];
    forall v, w | v in visited' && v in g && w in g[v]
      ensures w in visited' || w in nodeq'
    {
      if v != cur {
        assert w in visited || w in rest + [cur];
      } else if w !in visited' {
        assert w in added;
      }
    }
  }

  lemma StepQueueOrder(g: Graph, root: FileName, nodeq: seq<FileName>, visited: set<FileName>,
                       edges: seq<Edge>, rank: map<FileName, nat>, cur: FileName, rest: seq<FileName>,
                       visited': set<FileName>, rank': map<FileName, nat>,
                       added: seq<FileName>, nodeq': seq<FileName>, edges': seq<Edge>)
    requires QueueOrder(g, visited, nodeq)
    requires Popped(nodeq, visited, rank, cur, rest, visited', rank')
    requires Pushed(g, cur, visited', rest, edges, added, nodeq', edges')
    ensures QueueOrder(g, visited', nodeq')
  {
    forall i, w | 0 <= i < |nodeq'| && nodeq'[i] in visited' && nodeq'[i] in g && w in g[nodeq'[i]]
      ensures w in visited' || w in nodeq'[i + 1..]
    {
      if i < |rest| {
        assert nodeq'[i] == nodeq[i];
        assert nodeq'[i + 1..] == rest[i + 1..] + added;
        assert nodeq[i + 1..] == rest[i + 1..] + [cur];
        if nodeq[i] in visited {
          assert w in visited || w in rest[i + 1..] + [cur];
        } else if w !in visited' {
          assert w in added;
        }
      }
    }
  }

  lemma StepEdges(g: Graph, root: FileName, nodeq: seq<FileName>, visited: set<FileName>,
                  edges: seq<Edge>, rank: map<FileName, nat>, cur: FileName, rest: seq<FileName>,
                  visited': set<FileName>, rank': map<FileName, nat>,
                  added: seq<FileName>, nodeq': seq<FileName>, edges': seq<Edge>)
    requires Started(root, nodeq, visited, edges) && EdgesOfGraph(g, root, visited, edges)
    requires TargetsPending(visited, nodeq, edges)
    requires Popped(nodeq, visited, rank, cur, rest, visited', rank')
    requires Pushed(g, cur, visited', rest, edges, added, nodeq', edges')
    ensures EdgesOfGraph(g, root, visited', edges') && TargetsPending(visited', nodeq', edges')
  {
    assert nodeq == rest + [cur];
    assert root in visited';
    forall k | 0 <= k < |edges'|
      ensures edges'[k].0 in visited' && edges'[k].0 in g && edges'[k].1 in g[edges'[k].0]
      ensures edges'[k].1 != root
      ensures edges'[k].1 in visited' || edges'[k].1 in nodeq'
    {
      if k < |edges| {
        assert edges'[k] == edges[k];
        assert edges[k].1 in visited || edges[k].1 in rest + [cur];
      } else {
        var j := k - |edges|;
        assert edges'[k] == (cur, added[j]);
        assert added[j] in added;
        assert nodeq'[|rest| + j] == added[j];
      }
    }
  }

  lemma StepDistinct(g: Graph, root: FileName, nodeq: seq<FileName>, visited: set<FileName>,
                     edges: seq<Edge>, rank: map<FileName, nat>, cur: FileName, rest: seq<FileName>,
                     visited': set<FileName>, rank': map<FileName, nat>,
                     added: seq<FileName>, nodeq': seq<FileName>, edges': seq<Edge>)
    requires EdgesOfGraph(g, root, visited, edges) && Distinct(edges) && QueueOrder(g, visited, nodeq)
    requires Popped(nodeq, visited, rank, cur, rest, visited', rank')
    requires Pushed(g, cur, visited', rest, edges, added, nodeq', edges')
    ensures Distinct(edges')
  {
    if cur in visited {
      RevisitAddsNothing(g, root, nodeq, visited, edges, rank, cur, rest, visited', rank', added, nodeq', edges');
      assert edges' == edges;
    } else {
      forall k, l | 0 <= k < l < |edges'|
        ensures edges'[k] != edges'[l]
      {
        if l >= |edges| {
          assert edges'[l] == (cur, added[l - |edges|]);
          if k >= |edges| {
            assert edges'[k] == (cur, added[k - |edges|]);
          } else {
            assert edges'[k] == edges[k];
          }
        } else {
          assert edges'[k] == edges[k] && edges'[l] == edges[l];
        }
      }
    }
  }

  lemma StepCovered(g: Graph, root: FileName, nodeq: seq<FileName>, visited: set<FileName>,
                    edges: seq<Edge>, rank: map<FileName, nat>, cur: FileName, rest: seq<FileName>,
                    visited': set<FileName>, rank': map<FileName, nat>,
                    added: seq<FileName>, nodeq': seq<FileName>, edges': seq<Edge>)
    requires Covered(root, visited, nodeq, edges)
    requires Popped(nodeq, visited, rank, cur, rest, visited', rank')
    requires Pushed(g, cur, visited', rest, edges, added, nodeq', edges')
    ensures Covered(root, visited', nodeq', edges')
  {
    var more := EdgesFrom(cur, added);
    forall v | v in visited' && v != root
      ensures HasInEdge(edges', v)
    {
      if v !in visited {
        assert v == nodeq[|nodeq| - 1];
      }
      HasInEdgeGrow(edges, more, v);
    }
    forall i | 0 <= i < |nodeq'| && nodeq'[i] != root
      ensures HasInEdge(edges', nodeq'[i])
    {
      if i < |rest| {
        assert nodeq'[i] == nodeq[i];
        HasInEdgeGrow(edges, more, nodeq'[i]);
      } else {
        var j := i - |rest|;
        assert edges'[|edges| + j] == (cur, added[j]);
      }
    }
  }

  lemma StepRanked(g: Graph, root: FileName, nodeq: seq<FileName>, visited: set<FileName>,
                   edges: seq<Edge>, rank: map<FileName, nat>, cur: FileName, rest: seq<FileName>,
                   visited': set<FileName>, rank': map<FileName, nat>,
                   added: seq<FileName>, nodeq': seq<FileName>, edges': seq<Edge>)
    requires Ranked(visited, edges, rank) && EdgesOfGraph(g, root, visited, edges)
    requires Popped(nodeq, visited, rank, cur, rest, visited', rank')
    requires Pushed(g, cur, visited', rest, edges, added, nodeq', edges')
    ensures Ranked(visited', edges', rank')
  {
    if cur !in visited {
      assert |visited'| == |visited| + 1;
    }
    forall k | 0 <= k < |edges'| && edges'[k].1 in visited'
      ensures edges'[k].0 in rank' && rank'[edges'[k].0] < rank'[edges'[k].1]
    {
      if k < |edges| {
        assert edges'[k] == edges[k];
      }
    }
  }

  lemma StepNumbered(g: Graph, root: FileName, nodeq: seq<FileName>, visited: set<FileName>,
                     edges: seq<Edge>, rank: map<FileName, nat>, cur: FileName, rest: seq<FileName>,
                     visited': set<FileName>, rank': map<FileName, nat>,
                     added: seq<FileName>, nodeq': seq<FileName>, edges': seq<Edge>)
    requires Started(root, nodeq, visited, edges) && Ranked(visited, edges, rank) && Numbered(root, rank)
    requires Popped(nodeq, visited, rank, cur, rest, visited', rank')
    ensures Numbered(root, rank')
  {
    if cur !in visited {
      forall u, v | u in rank' && v in rank' && u != v
        ensures rank'[u] != rank'[v]
      {
        if u != cur && v != cur {
          assert rank'[u] == rank[u] && rank'[v] == rank[v];
        }
      }
      if root !in rank {
        assert cur == root;
      }
    }
  }

  lemma StepComplete(g: Graph, root: FileName, nodeq: seq<FileName>, visited: set<FileName>,
                     edges: seq<Edge>, rank: map<FileName, nat>, cur: FileName, rest: seq<FileName>,
                     visited': set<FileName>, rank': map<FileName, nat>,
                     added: seq<FileName>, nodeq': seq<FileName>, edges': seq<Edge>)
    requires QueueOrder(g, visited, nodeq) && EdgesOfGraph(g, root, visited, edges)
    requires Ranked(visited, edges, rank) && Complete(g, edges, rank)
    requires Popped(nodeq, visited, rank, cur, rest, visited', rank')
    requires Pushed(g, cur, visited', rest, edges, added, nodeq', edges')
    ensures Complete(g, edges', rank')
  {
    if cur in visited {
      RevisitAddsNothing(g, root, nodeq, visited, edges, rank, cur, rest, visited', rank', added, nodeq', edges');
      assert edges' == edges;
    } else {
      forall p, q | p in rank' && p in g && q in g[p]
        ensures (p, q) in edges' <==> (q in rank' ==> rank'[p] < rank'[q])
      {
        if p == cur {
          CurEdges(edges, cur, added, visited, q);
        } else {
          OtherEdges(edges, cur, added, p, q);
        }
      }
    }
  }

  /** The popped entry goes, and the files `cur` pushes are recorded as pushed by it. */
  lemma StepPushedBy(g: Graph, root: FileName, nodeq: seq<FileName>, visited: set<FileName>,
                     edges: seq<Edge>, rank: map<FileName, nat>, cur: FileName, rest: seq<FileName>,
                     visited': set<FileName>, rank': map<FileName, nat>,
                     added: seq<FileName>, nodeq': seq<FileName>, edges': seq<Edge>,
                     pushers: seq<FileName>, pushers': seq<FileName>)
    requires Started(root, nodeq, visited, edges) && Ranked(visited, edges, rank)
    requires QueueOrder(g, visited, nodeq) && PushedBy(g, nodeq, visited, rank, pushers)
    requires Popped(nodeq, visited, rank, cur, rest, visited', rank')
    requires Pushed(g, cur, visited', rest, edges, added, nodeq', edges')
    requires pushers' == pushers[..|pushers| - 1] + Repeat(cur, |added|)
    ensures PushedBy(g, nodeq', visited', rank', pushers')
  {
    if cur in visited {
      RevisitAddsNothing(g, root, nodeq, visited, edges, rank, cur, rest, visited', rank', added, nodeq', edges');
    }
    var oldOnes := visited != {} || rest == [];
    assert oldOnes;
    PushersValid(g, nodeq, visited, rank, pushers, cur, rest, added, nodeq', rank', pushers');
    PushersRise(g, nodeq, visited, rank, pushers, cur, rest, added, nodeq', rank', pushers');
    PendingPushed(g, nodeq, visited, rank, pushers, cur, rest, added, nodeq', visited', pushers');
  }

  /** Every entry of the new stack was pushed by a numbered file that has it as a neighbour. */
  lemma PushersValid(g: Graph, nodeq: seq<FileName>, visited: set<FileName>, rank: map<FileName, nat>,
                     pushers: seq<FileName>, cur: FileName, rest: seq<FileName>, added: seq<FileName>,
                     nodeq': seq<FileName>, rank': map<FileName, nat>, pushers': seq<FileName>)
    requires PushedBy(g, nodeq, visited, rank, pushers)
    requires nodeq == rest + [cur] && nodeq' == rest + added && (visited != {} || rest == [])
    requires cur in rank' && cur in g && (forall n :: n in added ==> n in g[cur])
    requires forall v :: v in rank ==> v in rank' && rank'[v] == rank[v]
    requires pushers' == pushers[..|pushers| - 1] + Repeat(cur, |added|)
    ensures |pushers'| == |nodeq'|
    ensures forall i :: 0 <= i < |nodeq'| ==> pushers'[i] in rank' && pushers'[i] in g && nodeq'[i] in g[pushers'[i]]
  {
    var top := |rest|;
    forall i | 0 <= i < |nodeq'|
      ensures pushers'[i] in rank' && pushers'[i] in g && nodeq'[i] in g[pushers'[i]]
    {
      if i < top {
        assert pushers'[i] == pushers[i] && nodeq'[i] == nodeq[i];
      } else {
        assert pushers'[i] == cur && nodeq'[i] == added[i - top];
        assert added[i - top] in added;
      }
    }
  }

  /** The pushers' numbers still never decrease up the stack: `cur` is numbered last. */
  lemma PushersRise(g: Graph, nodeq: seq<FileName>, visited: set<FileName>, rank: map<FileName, nat>,
                    pushers: seq<FileName>, cur: FileName, rest: seq<FileName>, added: seq<FileName>,
                    nodeq': seq<FileName>, rank': map<FileName, nat>, pushers': seq<FileName>)
    requires PushedBy(g, nodeq, visited, rank, pushers)
    requires nodeq == rest + [cur] && nodeq' == rest + added && (visited != {} || rest == [])
    requires cur in rank' && (added != [] ==> forall v :: v in rank ==> rank[v] < rank'[cur])
    requires forall v :: v in rank ==> v in rank' && rank'[v] == rank[v]
    requires pushers' == pushers[..|pushers| - 1] + Repeat(cur, |added|)
    ensures forall i, j :: 0 <= i < j < |nodeq'| && pushers'[i] in rank' && pushers'[j] in rank' ==>
      rank'[pushers'[i]] <= rank'[pushers'[j]]
  {
    var top := |rest|;
    forall i, j | 0 <= i < j < |nodeq'| && pushers'[i] in rank' && pushers'[j] in rank'
      ensures rank'[pushers'[i]] <= rank'[pushers'[j]]
    {
      if j < top {
        assert pushers'[i] == pushers[i] && pushers'[j] == pushers[j];
      } else if i < top {
        assert pushers'[i] == pushers[i] && pushers'[j] == cur;
      } else {
        assert pushers'[i] == cur && pushers'[j] == cur;
      }
    }
  }

  /** Each unvisited neighbour of a visited file is still on the stack as pushed by it. */
  lemma PendingPushed(g: Graph, nodeq: seq<FileName>, visited: set<FileName>, rank: map<FileName, nat>,
                      pushers: seq<FileName>, cur: FileName, rest: seq<FileName>, added: seq<FileName>,
                      nodeq': seq<FileName>, visited': set<FileName>, pushers': seq<FileName>)
    requires PushedBy(g, nodeq, visited, rank, pushers)
    requires nodeq == rest + [cur] && nodeq' == rest + added && visited' == visited + {cur}
    requires cur in visited ==> added == []
    requires cur in g && forall n :: n in added <==> n in g[cur] && n !in visited'
    requires pushers' == pushers[..|pushers| - 1] + Repeat(cur, |added|)
    ensures forall a, c :: a in visited' && a in g && c in g[a] && c !in visited' ==>
       exists i :: 0 <= i < |nodeq'| && nodeq'[i] == c && pushers'[i] == a
  {
    var top := |rest|;
    forall a, c | a in visited' && a in g && c in g[a] && c !in visited'
      ensures exists i :: 0 <= i < |nodeq'| && nodeq'[i] == c && pushers'[i] == a
    {
      if a == cur && cur !in visited {
        assert c in added;
        var j :| 0 <= j < |added| && added[j] == c;
        assert nodeq'[top + j] == c && pushers'[top + j] == cur;
      } else {
        var i :| 0 <= i < |nodeq| && nodeq[i] == c && pushers[i] == a;
        assert i != top;
        assert nodeq'[i] == c && pushers'[i] == a;
      }
    }
  }

  /** The file popped for the first time lies above every pending push of an earlier file. */
  lemma StepDepthFirst(g: Graph, root: FileName, nodeq: seq<FileName>, visited: set<FileName>,
                       edges: seq<Edge>, rank: map<FileName, nat>, cur: FileName, rest: seq<FileName>,
                       visited': set<FileName>, rank': map<FileName, nat>, pushers: seq<FileName>)
    requires Ranked(visited, edges, rank) && Numbered(root, rank) && DepthFirst(g, rank)
    requires PushedBy(g, nodeq, visited, rank, pushers)
    requires Popped(nodeq, visited, rank, cur, rest, visited', rank')
    ensures DepthFirst(g, rank')
  {
    if cur !in visited {
      var n := |visited|;
      assert rank' == rank[cur := n];
      forall a, b, c | Waiting(g, rank', a, b, c)
        ensures ReachedBetween(g, rank', a, b)
      {
        if b != cur {
          OldPairBetween(g, rank, cur, n, a, b, c);
        } else {
          NewPairBetween(g, nodeq, visited, rank, pushers, cur, n, a, c);
        }
      }
    }
  }

  /** A pair numbered before `cur` keeps the file that was reached between them. */
  lemma OldPairBetween(g: Graph, rank: map<FileName, nat>, cur: FileName, n: nat, a: FileName, b: FileName, c: FileName)
    requires cur !in rank && DepthFirst(g, rank) && forall v :: v in rank ==> rank[v] < n
    requires Waiting(g, rank[cur := n], a, b, c) && b != cur
    ensures ReachedBetween(g, rank[cur := n], a, b)
  {
    assert a != cur;
    assert Waiting(g, rank, a, b, c);
    KeptBetween(g, rank, cur, n, a, b);
  }

  /**
   * `cur`, numbered `n`, is not a neighbour of the earlier file `a`, which
   * still has the unvisited neighbour `c` on the stack: `cur` sits above that
   * entry, so it was pushed by a file numbered after `a`.
   */
  lemma NewPairBetween(g: Graph, nodeq: seq<FileName>, visited: set<FileName>, rank: map<FileName, nat>,
                       pushers: seq<FileName>, cur: FileName, n: nat, a: FileName, c: FileName)
    requires PushedBy(g, nodeq, visited, rank, pushers) && rank.Keys == visited
    requires nodeq != [] && nodeq[|nodeq| - 1] == cur && cur !in visited
    requires forall u, v :: u in rank && v in rank && u != v ==> rank[u] != rank[v]
    requires forall v :: v in rank ==> rank[v] < n
    requires a in visited && a in g && c in g[a] && c !in visited && c != cur && cur !in g[a]
    ensures ReachedBetween(g, rank[cur := n], a, cur)
  {
    var top := |nodeq| - 1;
    var i :| 0 <= i < |nodeq| && nodeq[i] == c && pushers[i] == a;
    var d := pushers[top];
    assert i < top && d in rank && d in g && cur in g[d];
    assert rank[a] <= rank[d] < n;
    NewBetween(g, rank, cur, n, a, d);
  }

  /** Numbering one more file keeps every file reached between two earlier ones. */
  lemma KeptBetween(g: Graph, rank: map<FileName, nat>, cur: FileName, n: nat, a: FileName, b: FileName)
    requires cur !in rank && a in rank && b in rank && ReachedBetween(g, rank, a, b)
    ensures ReachedBetween(g, rank[cur := n], a, b)
  {
    var d :| d in rank && d in g && b in g[d] && rank[a] < rank[d] < rank[b];
    assert rank[cur := n][d] == rank[d];
  }

  /**
   * The file `cur` numbered `n` was pushed by `d`, whose number is at least
   * that of `a`; as `a` itself did not push `cur`, `d` came after `a`.
   */
  lemma NewBetween(g: Graph, rank: map<FileName, nat>, cur: FileName, n: nat, a: FileName, d: FileName)
    requires cur !in rank && a in rank && d in rank && d in g && cur in g[d]
    requires a in g && cur !in g[a]
    requires rank[a] <= rank[d] < n
    requires forall u, v :: u in rank && v in rank && u != v ==> rank[u] != rank[v]
    ensures ReachedBetween(g, rank[cur := n], a, cur)
  {
    assert a != d;
    assert rank[cur := n][d] == rank[d];
  }

  /** The edges out of a file popped for the first time are exactly those to its pushed neighbours. */
  lemma CurEdges(edges: seq<Edge>, cur: FileName, added: seq<FileName>, visited: set<FileName>, q: FileName)
    requires cur !in visited
    requires forall k :: 0 <= k < |edges| ==> edges[k].0 in visited
    ensures (cur, q) in edges + EdgesFrom(cur, added) <==> q in added
  {
    var more := EdgesFrom(cur, added);
    if (cur, q) in edges + more {
      var k :| 0 <= k < |edges + more| && (edges + more)[k] == (cur, q);
      assert k >= |edges|;
      assert more[k - |edges|] == (cur, q);
    }
    if q in added {
      var j :| 0 <= j < |added| && added[j] == q;
      assert (edges + more)[|edges| + j] == (cur, q);
    }
  }

  /** Drawing the edges out of `cur` changes no edge out of another file. */
  lemma OtherEdges(edges: seq<Edge>, cur: FileName, added: seq<FileName>, p: FileName, q: FileName)
    requires p != cur
    ensures (p, q) in edges + EdgesFrom(cur, added) <==> (p, q) in edges
  {
    var more := EdgesFrom(cur, added);
    if (p, q) in edges + more {
      var k :| 0 <= k < |edges + more| && (edges + more)[k] == (p, q);
      assert k < |edges|;
      assert edges[k] == (p, q);
    }
    if (p, q) in edges {
      var k :| 0 <= k < |edges| && edges[k] == (p, q);
      assert (edges + more)[k] == (p, q);
    }
  }

  /** One iteration keeps the invariant and makes progress. */
  lemma Step(g: Graph, root: FileName, nodeq: seq<FileName>, visited: set<FileName>,
             edges: seq<Edge>, rank: map<FileName, nat>, cur: FileName, rest: seq<FileName>,
             visited': set<FileName>, rank': map<FileName, nat>,
             added: seq<FileName>, nodeq': seq<FileName>, edges': seq<Edge>,
             pushers: seq<FileName>, pushers': seq<FileName>)
    requires WalkInv(g, root, nodeq, visited, edges, rank, pushers)
    requires Popped(nodeq, visited, rank, cur, rest, visited', rank')
    requires Pushed(g, cur, visited', rest, edges, added, nodeq', edges')
    requires pushers' == pushers[..|pushers| - 1] + Repeat(cur, |added|)
    ensures WalkInv(g, root, nodeq', visited', edges', rank', pushers')
  {
    StepReached(g, root, nodeq, visited, edges, rank, cur, rest, visited', rank', added, nodeq', edges');
    StepFrontier(g, root, nodeq, visited, edges, rank, cur, rest, visited', rank', added, nodeq', edges');
    StepQueueOrder(g, root, nodeq, visited, edges, rank, cur, rest, visited', rank', added, nodeq', edges');
    StepEdges(g, root, nodeq, visited, edges, rank, cur, rest, visited', rank', added, nodeq', edges');
    StepDistinct(g, root, nodeq, visited, edges, rank, cur, rest, visited', rank', added, nodeq', edges');
    StepCovered(g, root, nodeq, visited, edges, rank, cur, rest, visited', rank', added, nodeq', edges');
    StepRanked(g, root, nodeq, visited, edges, rank, cur, rest, visited', rank', added, nodeq', edges');
    StepNumbered(g, root, nodeq, visited, edges, rank, cur, rest, visited', rank', added, nodeq', edges');
    StepComplete(g, root, nodeq, visited, edges, rank, cur, rest, visited', rank', added, nodeq', edges');
    StepPushedBy(g, root, nodeq, visited, edges, rank, cur, rest, visited', rank', added, nodeq', edges',
                 pushers, pushers');
    StepDepthFirst(g, root, nodeq, visited, edges, rank, cur, rest, visited', rank', pushers);
  }

  /** Each iteration visits a new file, or pops a visited one and pushes nothing. */
  lemma StepProgress(g: Graph, root: FileName, nodeq: seq<FileName>, visited: set<FileName>,
                     edges: seq<Edge>, rank: map<FileName, nat>, cur: FileName, rest: seq<FileName>,
                     visited': set<FileName>, rank': map<FileName, nat>,
                     added: seq<FileName>, nodeq': seq<FileName>, edges': seq<Edge>)
    requires QueueOrder(g, visited, nodeq)
    requires Popped(nodeq, visited, rank, cur, rest, visited', rank')
    requires Pushed(g, cur, visited', rest, edges, added, nodeq', edges')
    ensures |g.Keys - visited'| < |g.Keys - visited| ||
            (|g.Keys - visited'| == |g.Keys - visited| && |nodeq'| < |nodeq|)
  {
    if cur in visited {
      RevisitAddsNothing(g, root, nodeq, visited, edges, rank, cur, rest, visited', rank', added, nodeq', edges');
      assert visited' == visited;
    } else {
      assert g.Keys - visited' == (g.Keys - visited) - {cur};
    }
  }

  lemma WalkStart(g: Graph, root: FileName)
    ensures WalkInv(g, root, [root], {}, [], map[], [root])
  {
    ReachesSelf(g, root);
  }

  /** Every drawn edge goes from a file to one numbered after it. */
  ghost predicate EdgesRise(edges: seq<Edge>, rank: map<FileName, nat>)
  {
    forall k :: 0 <= k < |edges| ==>
      edges[k].0 in rank && edges[k].1 in rank && rank[edges[k].0] < rank[edges[k].1]
  }

  /** What the walk has drawn once the stack is empty. */
  ghost predicate Drawing(g: Graph, root: FileName, edges: seq<Edge>, rank: map<FileName, nat>)
  {
    // every line is an edge of the graph between files reachable from the root
    (forall k :: 0 <= k < |edges| ==>
       edges[k].0 in g && edges[k].1 in g[edges[k].0] && Reaches(g, root, edges[k].0)) &&
    // no line enters the start file, and no line is written twice
    (forall k :: 0 <= k < |edges| ==> edges[k].1 != root) &&
    Distinct(edges) &&
    // every reachable file other than the start file has a line into it
    (forall v :: Reaches(g, root, v) && v != root ==> HasInEdge(edges, v)) &&
    // `rank` numbers the reachable files 0, 1, ... in the order of their first
    // visit, starting with the root, and the drawn edges follow that order, so
    // they form no cycle
    (forall v :: v in rank <==> Reaches(g, root, v)) &&
    (forall v :: v in rank ==> rank[v] < |rank|) &&
    Numbered(root, rank) && root in rank &&
    EdgesRise(edges, rank) &&
    // a reachable file has a line to a neighbour exactly when the neighbour
    // was first visited after it, that is, not yet visited when the file was
    Complete(g, edges, rank) &&
    // and the numbering is the order of a depth-first search
    DepthFirst(g, rank)
  }

  lemma WalkDone(g: Graph, root: FileName, visited: set<FileName>, edges: seq<Edge>, rank: map<FileName, nat>,
                  pushers: seq<FileName>)
    requires WalkInv(g, root, [], visited, edges, rank, pushers)
    ensures forall v :: v in visited <==> Reaches(g, root, v)
    ensures rank.Keys == visited
    ensures Drawing(g, root, edges, rank)
  {
    assert root in visited;
    forall v | Reaches(g, root, v)
      ensures v in visited
    {
      var p :| IsPath(g, p) && p[0] == root && p[|p| - 1] == v;
      PathStaysIn(g, visited, p);
    }
  }

  // ---------------------------------------------------------------------
  // The walk

  /**
   * The inner loop of `_bfs`: for each neighbour of `cur` not yet visited,
   * write its edge line and push it. `added` lists those neighbours in the
   * order the set was traversed, which is left open.
   */
  method Expand(graph: Graph, cur: FileName, sfx: string, visited: set<FileName>,
                nodeq: seq<FileName>, text: string, edges: seq<Edge>)
    returns (nodeq': seq<FileName>, text': string, edges': seq<Edge>, added: seq<FileName>)
    requires cur in graph
    requires text == Lines(sfx, edges)
    ensures nodeq' == nodeq + added
    ensures edges' == edges + EdgesFrom(cur, added)
    ensures text' == Lines(sfx, edges')
    ensures forall n :: n in added <==> n in graph[cur] && n !in visited
    ensures Distinct(added)
  {
    var p := RemoveSuffix(cur, sfx);
    var rest := graph[cur];
    nodeq', text', edges', added := nodeq, text, edges, [];
    while rest != {}
      invariant rest <= graph[cur]
      invariant nodeq' == nodeq + added
      invariant edges' == edges + EdgesFrom(cur, added)
      invariant text' == Lines(sfx, edges')
      invariant forall n :: n in added <==> n in graph[cur] - rest && n !in visited
      invariant Distinct(added)
      decreases |rest|
    {
      var node :| node in rest;
      if node !in visited {
        var q := RemoveSuffix(node, sfx);
        EmitStep(cur, sfx, node, nodeq, edges, added, nodeq', edges', text');
        EmitMember(graph, cur, visited, rest, node, added);
        text' := text' + EdgeLine(p, q);
        nodeq' := nodeq' + [node];
        edges' := edges' + [(cur, node)];
        added := added + [node];
      } else {
        SkipStep(graph, cur, visited, rest, node, added);
      }
      rest := rest - {node};
    }
    assert graph[cur] - rest == graph[cur];
  }

  /** One unvisited neighbour: its line is written and it is pushed ... */
  lemma EmitStep(cur: FileName, sfx: string, node: FileName, nodeq: seq<FileName>, edges: seq<Edge>,
                 added: seq<FileName>, nq: seq<FileName>, es: seq<Edge>, text: string)
    requires nq == nodeq + added && es == edges + EdgesFrom(cur, added) && text == Lines(sfx, es)
    ensures nq + [node] == nodeq + (added + [node])
    ensures es + [(cur, node)] == edges + EdgesFrom(cur, added + [node])
    ensures text + EdgeLine(RemoveSuffix(cur, sfx), RemoveSuffix(node, sfx)) == Lines(sfx, es + [(cur, node)])
  {
    LinesAppend(sfx, es, (cur, node));
    EdgesFromAppend(cur, added, node);
    AppendAssoc(nodeq, added, [node]);
    AppendAssoc(edges, EdgesFrom(cur, added), [(cur, node)]);
  }

  lemma AppendAssoc<T>(a: seq<T>, b: seq<T>, c: seq<T>)
    ensures (a + b) + c == a + (b + c)
  {
    var l, r := (a + b) + c, a + (b + c);
    forall j | 0 <= j < |l|
      ensures l[j] == r[j]
    {
      if j < |a| {
      } else if j < |a| + |b| {
        assert l[j] == b[j - |a|] && r[j] == (b + c)[j - |a|];
      } else {
        assert l[j] == c[j - |a| - |b|] && r[j] == (b + c)[j - |a|];
      }
    }
  }

  /** ... so it joins the files pushed so far, which it was not among. */
  lemma EmitMember(g: Graph, cur: FileName, visited: set<FileName>, rest: set<FileName>,
                   node: FileName, added: seq<FileName>)
    requires cur in g && rest <= g[cur] && node in rest && node !in visited
    requires forall n :: n in added <==> n in g[cur] - rest && n !in visited
    requires Distinct(added)
    ensures forall n :: n in added + [node] <==> n in g[cur] - (rest - {node}) && n !in visited
    ensures Distinct(added + [node])
  {
    assert node !in added;
  }

  lemma EdgesFromAppend(cur: FileName, added: seq<FileName>, n: FileName)
    ensures EdgesFrom(cur, added + [n]) == EdgesFrom(cur, added) + [(cur, n)]
  {
    var a, b := EdgesFrom(cur, added + [n]), EdgesFrom(cur, added) + [(cur, n)];
    forall j | 0 <= j < |a|
      ensures a[j] == b[j]
    {
      if j < |added| {
        assert (added + [n])[j] == added[j];
      }
    }
  }

  /** One neighbour that was already visited: nothing is written. */
  lemma SkipStep(g: Graph, cur: FileName, visited: set<FileName>, rest: set<FileName>,
                 node: FileName, added: seq<FileName>)
    requires cur in g && node in rest && node in visited
    requires forall n :: n in added <==> n in g[cur] - rest && n !in visited
    ensures forall n :: n in added <==> n in g[cur] - (rest - {node}) && n !in visited
  {
  }

  /**
   * `_bfs`: the depth-first walk from `root`, returning the text it writes.
   * The files it visits are exactly those reachable from `root`, and it
   * draws one line into each of them except `root`.
   */
  method Walk(graph: Graph, root: FileName)
    returns (text: string, edges: seq<Edge>, reached: set<FileName>, ghost rank: map<FileName, nat>)
    requires ReachableAreKeys(graph, root)
    ensures text == Lines(DisplaySuffix(root), edges)
    ensures forall v :: v in reached <==> Reaches(graph, root, v)
    ensures rank.Keys == reached
    ensures Drawing(graph, root, edges, rank)
  {
    var sfx := DisplaySuffix(root);
    var nodeq := [root];
    ghost var pushers := [root];
    var visited: set<FileName> := {};
    text, edges, rank := "", [], map[];
    WalkStart(graph, root);
    while nodeq != []
      invariant WalkInv(graph, root, nodeq, visited, edges, rank, pushers)
      invariant text == Lines(sfx, edges)
      decreases |graph.Keys - visited|, |nodeq|
    {
      var cur := nodeq[|nodeq| - 1];
      var rest := nodeq[..|nodeq| - 1];
      ghost var visitedBefore, rankBefore := visited, rank;
      visited := visited + {cur};
      if cur !in visitedBefore {
        rank := rank[cur := |visitedBefore|];
      }
      assert Reaches(graph, root, nodeq[|nodeq| - 1]);
      ghost var edgesBefore, nodeqBefore := edges, nodeq;
      var added;
      nodeq, text, edges, added := Expand(graph, cur, sfx, visited, rest, text, edges);
      ghost var pushersBefore := pushers;
      pushers := pushers[..|pushers| - 1] + Repeat(cur, |added|);
      Step(graph, root, nodeqBefore, visitedBefore, edgesBefore, rankBefore, cur, rest,
           visited, rank, added, nodeq, edges, pushersBefore, pushers);
      StepProgress(graph, root, nodeqBefore, visitedBefore, edgesBefore, rankBefore, cur, rest,
                   visited, rank, added, nodeq, edges);
    }
    WalkDone(graph, root, visited, edges, rank, pushers);
    reached := visited;
  }

  /** `bfs`: the whole `deps.dot` text for the graph drawn from `start`. */
  method Bfs(graph: Graph, start: FileName)
    returns (dot: string, edges: seq<Edge>, ghost rank: map<FileName, nat>)
    requires ReachableAreKeys(graph, start)
    ensures dot == DotHeader + Lines(DisplaySuffix(start), edges) + DotFooter
    ensures Drawing(graph, start, edges, rank)
  {
    var text;
    var visited;
    text, edges, visited, rank := Walk(graph, start);
    dot := DotHeader + text + DotFooter;
  }

  // ---------------------------------------------------------------------
  // Properties of a drawing

  /** A chain of drawn edges, each starting where the previous one ends. */
  ghost predicate EdgeChain(edges: seq<Edge>, ks: seq<int>)
  {
    |ks| >= 1 && (forall i :: 0 <= i < |ks| ==> 0 <= ks[i] < |edges|) &&
    (forall i :: 0 <= i < |ks| - 1 ==> edges[ks[i]].1 == edges[ks[i + 1]].0)
  }

  lemma {:induction false} ChainRises(edges: seq<Edge>, rank: map<FileName, nat>, ks: seq<int>)
    requires EdgesRise(edges, rank) && EdgeChain(edges, ks)
    ensures rank[edges[ks[0]].0] < rank[edges[ks[|ks| - 1]].1]
  {
    if |ks| > 1 {
      var n := |ks| - 1;
      var init := ks[..n];
      assert EdgeChain(edges, init) by {
        forall i | 0 <= i < |init| - 1
          ensures edges[init[i]].1 == edges[init[i + 1]].0
        {
          assert init[i] == ks[i] && init[i + 1] == ks[i + 1];
        }
      }
      ChainRises(edges, rank, init);
      assert edges[ks[n - 1]].1 == edges[ks[n]].0;
    }
  }

  /** The drawn edges have no cycle: a chain of them never returns to where it started. */
  lemma DrawingIsAcyclic(g: Graph, root: FileName, edges: seq<Edge>, rank: map<FileName, nat>, ks: seq<int>)
    requires Drawing(g, root, edges, rank) && EdgeChain(edges, ks)
    ensures edges[ks[|ks| - 1]].1 != edges[ks[0]].0
  {
    ChainRises(edges, rank, ks);
  }

  /** The root is visited first, so an edge is drawn from it to each of its other neighbours. */
  lemma RootNeighboursDrawn(g: Graph, root: FileName, edges: seq<Edge>, rank: map<FileName, nat>, q: FileName)
    requires Drawing(g, root, edges, rank)
    requires root in g && q in g[root] && q != root
    ensures (root, q) in edges
  {
    ReachesSelf(g, root);
    ReachesStep(g, root, root, q);
    assert rank[q] != rank[root];
  }

  /** A graph with the one edge `a -> b`, drawn from `a`, has exactly that edge drawn. */
  lemma SingleEdgeDrawing(a: FileName, b: FileName, edges: seq<Edge>, rank: map<FileName, nat>)
    requires a != b
    requires Drawing(map[a := {b}, b := {}], a, edges, rank)
    ensures edges == [(a, b)]
  {
    var g: Graph := map[a := {b}, b := {}];
    assert IsPath(g, [a, b]);
    assert HasInEdge(edges, b);
    forall j | 0 <= j < |edges|
      ensures edges[j] == (a, b)
    {
      assert edges[j].0 in g;
    }
    if |edges| > 1 {
      FirstTwoDiffer(edges);
      assert false;
    }
  }

  lemma FirstTwoDiffer(edges: seq<Edge>)
    requires Distinct(edges) && |edges| > 1
    ensures edges[0] != edges[1]
  {
  }

  /** The line for `a.o -> b.o` when the start file is an `.o` file. */
  lemma TwoFileText()
    ensures Lines(DisplaySuffix("a.o"), [("a.o", "b.o")]) == "  \"a\" -> \"b\"\n"
  {
    assert "a.o"[1..] == ".o" && "b.o"[1..] == ".o";
    assert RemoveSuffix("a.o", ".o") == "a" && RemoveSuffix("b.o", ".o") == "b";
    LinesAppend(".o", [], ("a.o", "b.o"));
    assert [] + [("a.o", "b.o")] == [("a.o", "b.o")];
  }

  /** Two files, `a.o` depending on `b.o`: the walk from `a.o` writes exactly the line `  "a" -> "b"`. */
  lemma TwoFileDrawing(edges: seq<Edge>, rank: map<FileName, nat>)
    requires Drawing(map["a.o" := {"b.o"}, "b.o" := {}], "a.o", edges, rank)
    ensures edges == [("a.o", "b.o")]
    ensures Lines(DisplaySuffix("a.o"), edges) == "  \"a\" -> \"b\"\n"
  {
    assert "a.o"[0] != "b.o"[0];
    SingleEdgeDrawing("a.o", "b.o", edges, rank);
    TwoFileText();
  }

  /** The diamond `a -> {b, c}`, `b -> d`, `c -> d`. */
  function DiamondGraph(a: FileName, b: FileName, c: FileName, d: FileName): Graph
  {
    map[a := {b, c}, b := {d}, c := {d}, d := {}]
  }

  /**
   * The diamond drawn from `a`: both edges out of `a` are drawn, and exactly
   * one of `b -> d` and `c -> d`. Whichever of `b` and `c` is visited first
   * pushes `d` last, so `d` is visited next and the other finds it visited.
   */
  lemma DiamondDrawing(a: FileName, b: FileName, c: FileName, d: FileName, edges: seq<Edge>, rank: map<FileName, nat>)
    requires a != b && a != c && a != d && b != c && b != d && c != d
    requires Drawing(DiamondGraph(a, b, c, d), a, edges, rank)
    ensures (a, b) in edges && (a, c) in edges
    ensures (b, d) in edges <==> (c, d) !in edges
  {
    var g := DiamondGraph(a, b, c, d);
    DiamondShape(a, b, c, d);
    DrawnDiamond(g, a, b, c, d, edges, rank);
    JoinDrawnOnce(g, a, b, c, d, edges, rank);
  }

  /** Which files of the diamond are reachable from `a`, and the parents of `b` and `c`. */
  lemma DiamondShape(a: FileName, b: FileName, c: FileName, d: FileName)
    requires a != b && a != c && a != d && b != c && b != d && c != d
    ensures var g := DiamondGraph(a, b, c, d);
            Reaches(g, a, b) && Reaches(g, a, c) && Reaches(g, a, d) &&
            (forall u :: u in g && b in g[u] ==> u == a) &&
            (forall u :: u in g && c in g[u] ==> u == a) &&
            (forall u :: u in g && d in g[u] ==> u == b || u == c) &&
            b in g && g[b] == {d} && c in g && g[c] == {d}
  {
    var g := DiamondGraph(a, b, c, d);
    assert IsPath(g, [a, b]);
    assert IsPath(g, [a, c]);
    assert IsPath(g, [a, b, d]);
  }

  /** Any drawing of a graph of that shape draws both edges out of `a` and a line into `d`. */
  lemma DrawnDiamond(g: Graph, a: FileName, b: FileName, c: FileName, d: FileName,
                     edges: seq<Edge>, rank: map<FileName, nat>)
    requires a != b && a != c && a != d
    requires Drawing(g, a, edges, rank)
    requires Reaches(g, a, b) && Reaches(g, a, c) && Reaches(g, a, d)
    requires forall u :: u in g && b in g[u] ==> u == a
    requires forall u :: u in g && c in g[u] ==> u == a
    ensures (a, b) in edges && (a, c) in edges
    ensures HasInEdge(edges, d)
  {
    SoleParentDrawn(g, a, edges, rank, a, b);
    SoleParentDrawn(g, a, edges, rank, a, c);
  }

  /**
   * Two files `b` and `c` whose only predecessor is the root and whose only
   * successor is `d`: exactly one of them draws the line into `d`.
   */
  lemma JoinDrawnOnce(g: Graph, root: FileName, b: FileName, c: FileName, d: FileName,
                      edges: seq<Edge>, rank: map<FileName, nat>)
    requires root != b && root != d && root != c && b != c && b != d && c != d
    requires Drawing(g, root, edges, rank)
    requires Reaches(g, root, b) && Reaches(g, root, c) && Reaches(g, root, d)
    requires b in g && g[b] == {d} && c in g && g[c] == {d}
    requires forall u :: u in g && b in g[u] ==> u == root
    requires forall u :: u in g && c in g[u] ==> u == root
    requires forall u :: u in g && d in g[u] ==> u == b || u == c
    ensures (b, d) in edges <==> (c, d) !in edges
  {
    var k :| 0 <= k < |edges| && edges[k].1 == d;
    var p := edges[k].0;
    assert p in g && d in g[p];
    assert (p, d) in edges by { assert edges[k] == (p, d); }
    assert p == b || p == c;
    assert b in rank && c in rank && rank[b] != rank[c];
    if rank[b] < rank[c] {
      SiblingFirst(g, root, b, c, d, edges, rank);
    } else {
      SiblingFirst(g, root, c, b, d, edges, rank);
    }
  }

  /**
   * If `b` is visited before its sibling `c`, then `d`, which `b` pushed,
   * is visited before `c`, so `c` draws no line into it.
   */
  lemma SiblingFirst(g: Graph, root: FileName, b: FileName, c: FileName, d: FileName,
                     edges: seq<Edge>, rank: map<FileName, nat>)
    requires root != b && root != c && b != c && c != d
    requires Drawing(g, root, edges, rank)
    requires Reaches(g, root, b) && Reaches(g, root, c) && Reaches(g, root, d)
    requires b in g && g[b] == {d} && c in g && d in g[c]
    requires forall u :: u in g && c in g[u] ==> u == root
    requires rank[b] < rank[c]
    ensures rank[d] < rank[c]
    ensures (c, d) !in edges
  {
    NotBetween(g, rank, root, b, c);
    assert d in g[b] && c !in g[b];
    assert rank[c] != rank[d];
    assert rank[c] < rank[d] ==> Waiting(g, rank, b, c, d);
  }

  /** A file whose only predecessor is the root, numbered 0, is reached between no two files. */
  lemma NotBetween(g: Graph, rank: map<FileName, nat>, root: FileName, b: FileName, c: FileName)
    requires root in rank && rank[root] == 0 && b in rank && c in rank
    requires forall u :: u in g && c in g[u] ==> u == root
    ensures !ReachedBetween(g, rank, b, c)
  {
  }

  /** A reachable file with a single predecessor in the graph has the edge from it drawn. */
  lemma SoleParentDrawn(g: Graph, root: FileName, edges: seq<Edge>, rank: map<FileName, nat>, p: FileName, v: FileName)
    requires Drawing(g, root, edges, rank) && Reaches(g, root, v) && v != root
    requires forall u :: u in g && v in g[u] ==> u == p
    ensures (p, v) in edges
  {
    var k :| 0 <= k < |edges| && edges[k].1 == v;
    assert edges[k] == (p, v);
  }
}
