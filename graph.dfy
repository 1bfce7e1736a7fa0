/** The graph of src/graph.rs: vertices, adjacency sets, and the colour,
    distance and predecessor maps that breadth-first search fills in. */
module Graphs {

  /** The colour of a vertex during breadth-first search. */
  datatype Color = White | Gray | Black

  /** `m` and `m0` agree at `k`: both lack it or both map it to the same value. */
  predicate SameAt<V(==)>(m: map<int, V>, m0: map<int, V>, k: int)
  {
    (k in m <==> k in m0) && (k in m ==> m[k] == m0[k])
  }

  /** `p` is a walk along the edges of `adj`. */
  ghost predicate IsPath(adj: map<int, set<int>>, p: seq<int>)
    decreases |p|
  {
    |p| > 0 && (|p| == 1 || (p[0] in adj && p[1] in adj[p[0]] && IsPath(adj, p[1..])))
  }

  /** Some walk along the edges of `adj` leads from `s` to `v`. */
  ghost predicate Reachable(adj: map<int, set<int>>, s: int, v: int)
  {
    exists p :: IsPath(adj, p) && p[0] == s && p[|p| - 1] == v
  }

  /** `b` holds every successor of each of its members. */
  ghost predicate ClosedUnder(adj: map<int, set<int>>, b: set<int>)
  {
    forall u :: u in b && u in adj ==> forall w :: w in adj[u] ==> w in b
  }

  /** A set closed under the edges holds every vertex a walk from it reaches. */
  lemma {:induction false} ClosedHoldsWalks(adj: map<int, set<int>>, b: set<int>, p: seq<int>)
    requires ClosedUnder(adj, b) && IsPath(adj, p) && p[0] in b
    ensures p[|p| - 1] in b
    decreases |p|
  {
    if |p| > 1 {
      var u := p[0];
      assert u in b && u in adj;
      assert forall w :: w in adj[u] ==> w in b;
      assert p[1] in adj[u];
      assert p[1..][0] == p[1];
      ClosedHoldsWalks(adj, b, p[1..]);
    }
  }

  /** A walk extended by one edge at its end is a walk. */
  lemma {:induction false} PathSnoc(adj: map<int, set<int>>, p: seq<int>, v: int)
    requires IsPath(adj, p) && p[|p| - 1] in adj && v in adj[p[|p| - 1]]
    ensures IsPath(adj, p + [v])
    decreases |p|
  {
    if |p| > 1 {
      PathSnoc(adj, p[1..], v);
      assert (p + [v])[1..] == p[1..] + [v];
    }
  }

  /** Following predecessors from `v` back to `s`, every step along an edge
      and one shorter in distance, yields a walk from `s` to `v` whose length
      is `dist[v]`. */
  lemma {:induction false} PredecessorWalk(adj: map<int, set<int>>, pred: map<int, int>,
                                           dist: map<int, int>, seen: set<int>, s: int, v: int)
    requires s in seen && v in seen
    requires forall u :: u in seen ==> u in dist && dist[u] >= 0
    requires s in dist && dist[s] == 0
    requires forall u :: u in seen && u != s ==>
      u in pred && pred[u] in seen && pred[u] in dist && pred[u] in adj && u in adj[pred[u]]
      && dist[u] == dist[pred[u]] + 1
    ensures exists p :: IsPath(adj, p) && p[0] == s && p[|p| - 1] == v && |p| == dist[v] + 1
    decreases dist[v]
  {
    if v == s {
      assert IsPath(adj, [s]);
    } else {
      var u := pred[v];
      PredecessorWalk(adj, pred, dist, seen, s, u);
      var q :| IsPath(adj, q) && q[0] == s && q[|q| - 1] == u && |q| == dist[u] + 1;
      PathSnoc(adj, q, v);
      var p := q + [v];
      assert p[0] == s && p[|p| - 1] == v;
    }
  }

  /** The three maps `bfs` writes: colour, distance and predecessor. */
  datatype Labels = Labels(color: map<int, Color>, distance: map<int, int>, pred: map<int, int>)

  /** What `add_edge` keeps: every vertex has an adjacency entry, and every
      neighbour is a vertex. */
  ghost predicate WellFormed(vertices: set<int>, adjacent: map<int, set<int>>)
  {
    && vertices <= adjacent.Keys
    && forall u, w :: u in adjacent && w in adjacent[u] ==> w in vertices
  }

  /** `u` is one of the vertices a search from `s` colours. */
  ghost predicate InScope(vertices: set<int>, s: int, u: int)
  {
    u == s || u in vertices
  }

  /** The colours agree with the search's bookkeeping: White are the unseen
      vertices, Gray those in `front` (the queue, with the vertex being
      scanned at its head), Black those in `done` (taken off the queue). */
  ghost predicate Coloured(vertices: set<int>, s: int, m: Labels,
                           done: seq<int>, front: seq<int>, unseen: set<int>)
  {
    && s !in unseen && unseen <= vertices
    && (forall u :: InScope(vertices, s, u) ==> u in m.color && u in m.distance)
    && (forall u :: InScope(vertices, s, u) ==>
          (m.color[u] == White <==> u in unseen)
          && (m.color[u] == Gray <==> u in front)
          && (m.color[u] == Black <==> u in done))
    && (forall i :: 0 <= i < |done| ==> InScope(vertices, s, done[i]))
    && (forall i :: 0 <= i < |front| ==> InScope(vertices, s, front[i]))
    && (forall i, j :: 0 <= i < j < |done| ==> done[i] != done[j])
    && (forall i, j :: 0 <= i < j < |front| ==> front[i] != front[j])
  }

  /** Every discovered vertex other than `s` was reached along an edge from a
      discovered predecessor, one step further away; `s` is at distance 0. */
  ghost predicate Discovered(vertices: set<int>, adjacent: map<int, set<int>>, s: int,
                             m: Labels, unseen: set<int>)
  {
    && s in m.distance && m.distance[s] == 0
    && (forall u :: InScope(vertices, s, u) && u !in unseen ==>
          u in m.distance && m.distance[u] >= 0)
    && (forall u :: InScope(vertices, s, u) && u !in unseen && u != s ==> u in m.pred)
    && (forall u {:trigger m.pred[u]} ::
          InScope(vertices, s, u) && u !in unseen && u != s && u in m.pred ==>
          && InScope(vertices, s, m.pred[u]) && m.pred[u] !in unseen
          && m.pred[u] in adjacent && u in adjacent[m.pred[u]]
          && u in m.distance && m.pred[u] in m.distance
          && m.distance[u] == m.distance[m.pred[u]] + 1)
  }

  /** Undiscovered vertices keep distance 0 and their old predecessor; keys
      outside the search are as they were before it; the source, never
      discovered, keeps its old predecessor too. */
  ghost predicate Untouched(vertices: set<int>, s: int, m: Labels, unseen: set<int>, m0: Labels)
  {
    && (forall u :: u in unseen ==>
          u in m.distance && m.distance[u] == 0 && SameAt(m.pred, m0.pred, u))
    && (forall u :: !InScope(vertices, s, u) ==>
          SameAt(m.color, m0.color, u) && SameAt(m.distance, m0.distance, u)
          && SameAt(m.pred, m0.pred, u))
    && SameAt(m.pred, m0.pred, s)
  }

  /** The state of `bfs(s)` between two steps; `m0` are the maps before the search. */
  ghost predicate BfsInv(vertices: set<int>, adjacent: map<int, set<int>>, s: int, m: Labels,
                         done: seq<int>, front: seq<int>, unseen: set<int>, m0: Labels)
  {
    && WellFormed(vertices, adjacent) && s in adjacent
    && Coloured(vertices, s, m, done, front, unseen)
    && (forall u, w :: u in done && w in adjacent[u] ==> w !in unseen)
    && Discovered(vertices, adjacent, s, m, unseen)
    && Untouched(vertices, s, m, unseen, m0)
  }

  /** After `bleach` and the colouring of `s`, the search starts with `s`
      alone in the queue and every other vertex unseen. */
  lemma StartPreserves(vertices: set<int>, adjacent: map<int, set<int>>, s: int,
                       m1: Labels, m0: Labels)
    requires WellFormed(vertices, adjacent) && s in adjacent
    requires m1.pred == m0.pred
    requires forall u :: u in vertices ==>
      u in m1.color && m1.color[u] == White && u in m1.distance && m1.distance[u] == 0
    requires forall u :: u !in vertices ==>
      SameAt(m1.color, m0.color, u) && SameAt(m1.distance, m0.distance, u)
    ensures BfsInv(vertices, adjacent, s,
                   Labels(m1.color[s := Gray], m1.distance[s := 0], m1.pred),
                   [], [s], vertices - {s}, m0)
  {
  }

  /** The colouring part of discovering `w`: it leaves the unseen set and joins the front. */
  lemma DiscoverColoured(vertices: set<int>, s: int, m: Labels,
                         done: seq<int>, front: seq<int>, unseen: set<int>, w: int, d: int, v: int)
    requires Coloured(vertices, s, m, done, front, unseen) && w in unseen
    ensures Coloured(vertices, s, Labels(m.color[w := Gray], m.distance[w := d], m.pred[w := v]),
                     done, front + [w], unseen - {w})
  {
    var front' := front + [w];
    assert w !in front;
    forall i, j | 0 <= i < j < |front'|
      ensures front'[i] != front'[j]
    {
      if j == |front| {
        assert front'[i] == front[i];
      }
    }
  }

  /** The distance and predecessor part of discovering `w` from `v`. */
  lemma DiscoverDiscovered(vertices: set<int>, adjacent: map<int, set<int>>, s: int, m: Labels,
                           unseen: set<int>, w: int, v: int)
    requires Discovered(vertices, adjacent, s, m, unseen)
    requires InScope(vertices, s, v) && v !in unseen && v in m.distance
    requires v in adjacent && w in adjacent[v] && w in unseen && w in vertices && w != s
    ensures Discovered(vertices, adjacent, s,
                       Labels(m.color[w := Gray], m.distance[w := m.distance[v] + 1], m.pred[w := v]),
                       unseen - {w})
  {
    var m' := Labels(m.color[w := Gray], m.distance[w := m.distance[v] + 1], m.pred[w := v]);
    forall u | InScope(vertices, s, u) && u !in unseen - {w} && u != s && u in m'.pred
      ensures && InScope(vertices, s, m'.pred[u]) && m'.pred[u] !in unseen - {w}
              && m'.pred[u] in adjacent && u in adjacent[m'.pred[u]]
              && u in m'.distance && m'.pred[u] in m'.distance
              && m'.distance[u] == m'.distance[m'.pred[u]] + 1
    {
      if u != w {
        assert m'.pred[u] == m.pred[u];
      }
    }
  }

  /** Discovering `w` keeps every vertex outside the search as it was. */
  lemma DiscoverUntouched(vertices: set<int>, s: int, m: Labels, unseen: set<int>, m0: Labels,
                          w: int, d: int, v: int)
    requires Untouched(vertices, s, m, unseen, m0) && w in vertices && w != s
    ensures Untouched(vertices, s, Labels(m.color[w := Gray], m.distance[w := d], m.pred[w := v]),
                      unseen - {w}, m0)
  {
  }

  /** Discovering the White neighbour `w` of the vertex `v` at the head of the
      front: Gray, one further than `v`, `v` as predecessor, queued last. */
  lemma DiscoverPreserves(vertices: set<int>, adjacent: map<int, set<int>>, s: int, m: Labels,
                          done: seq<int>, v: int, rest: seq<int>, unseen: set<int>, m0: Labels,
                          w: int)
    requires BfsInv(vertices, adjacent, s, m, done, [v] + rest, unseen, m0)
    requires v in adjacent && v in m.distance && w in adjacent[v] && w in unseen
    ensures BfsInv(vertices, adjacent, s,
                   Labels(m.color[w := Gray], m.distance[w := m.distance[v] + 1], m.pred[w := v]),
                   done, [v] + (rest + [w]), unseen - {w}, m0)
  {
    var front := [v] + rest;
    assert front[0] == v;
    assert InScope(vertices, s, v) && v !in unseen;
    DiscoverColoured(vertices, s, m, done, front, unseen, w, m.distance[v] + 1, v);
    DiscoverDiscovered(vertices, adjacent, s, m, unseen, w, v);
    DiscoverUntouched(vertices, s, m, unseen, m0, w, m.distance[v] + 1, v);
    assert front + [w] == [v] + (rest + [w]);
  }

  /** Finishing the vertex `v` at the head of the front once all its
      neighbours are seen: Black, and appended to `done`. */
  lemma FinishPreserves(vertices: set<int>, adjacent: map<int, set<int>>, s: int, m: Labels,
                        done: seq<int>, v: int, rest: seq<int>, unseen: set<int>, m0: Labels)
    requires BfsInv(vertices, adjacent, s, m, done, [v] + rest, unseen, m0)
    requires v in adjacent
    requires forall w :: w in adjacent[v] ==> w !in unseen
    ensures BfsInv(vertices, adjacent, s, Labels(m.color[v := Black], m.distance, m.pred),
                   done + [v], rest, unseen, m0)
  {
    var front := [v] + rest;
    assert front[0] == v;
    var m' := Labels(m.color[v := Black], m.distance, m.pred);
    var done' := done + [v];
    assert v !in rest by {
      forall i | 0 <= i < |rest|
        ensures rest[i] != v
      {
        assert rest[i] == front[i + 1];
      }
    }
    assert v !in done;
    forall i, j | 0 <= i < j < |done'|
      ensures done'[i] != done'[j]
    {
      if j == |done| {
        assert done'[i] == done[i];
      }
    }
    assert forall i :: 0 <= i < |rest| ==> rest[i] == front[i + 1];
    assert Coloured(vertices, s, m', done', rest, unseen);
  }

  /** The labels `m` after scanning the neighbours `d` of `v`, starting from
      `m0` with the White vertices `unseen0`: exactly the White ones among
      `d` are Gray, one further away than `v`, with `v` as predecessor;
      every other entry is as in `m0`. */
  ghost predicate ScannedFrom(m0: Labels, m: Labels, v: int, d: set<int>, unseen0: set<int>)
  {
    && v in m0.distance
    && (forall w :: w in unseen0 && w in d ==>
          && w in m.color && m.color[w] == Gray && w in m.distance
          && m.distance[w] == m0.distance[v] + 1 && w in m.pred && m.pred[w] == v)
    && (forall u :: !(u in unseen0 && u in d) ==>
          SameAt(m.color, m0.color, u) && SameAt(m.distance, m0.distance, u)
          && SameAt(m.pred, m0.pred, u))
  }

  /** The queue `q` is `q0` followed by vertices of `d` that were White
      (FIFO: nothing already queued moves). */
  ghost predicate AppendedTo(q0: seq<int>, q: seq<int>, d: set<int>, unseen0: set<int>)
  {
    && |q0| <= |q| && q[..|q0|] == q0
    && (forall i :: |q0| <= i < |q| ==> q[i] in d && q[i] in unseen0)
  }

  /** One more neighbour `w` scanned: discovered and queued if White,
      otherwise nothing changes. */
  lemma ScanStep(m0: Labels, mb: Labels, ma: Labels, v: int, w: int, d: set<int>,
                 unseen0: set<int>, q0: seq<int>, qb: seq<int>, qa: seq<int>)
    requires ScannedFrom(m0, mb, v, d, unseen0) && AppendedTo(q0, qb, d, unseen0)
    requires v !in unseen0 && w in mb.color && v in mb.distance
    requires mb.color[w] == White <==> w in unseen0 && w !in d
    requires mb.color[w] == White ==>
      ma == Labels(mb.color[w := Gray], mb.distance[w := mb.distance[v] + 1], mb.pred[w := v])
      && qa == qb + [w]
    requires mb.color[w] != White ==> ma == mb && qa == qb
    ensures ScannedFrom(m0, ma, v, d + {w}, unseen0) && AppendedTo(q0, qa, d + {w}, unseen0)
  {
    if mb.color[w] == White {
      assert qa[..|qb|] == qb;
      assert qa[..|q0|] == qb[..|q0|];
    }
  }

  /** A round of the queue loop either discovers a vertex or shortens the queue. */
  lemma RoundProgress(unseen0: set<int>, d: set<int>, unseen: set<int>, n: nat, n0: nat)
    requires unseen == unseen0 - d
    requires unseen == unseen0 ==> n + 1 == n0
    ensures unseen < unseen0 || (unseen == unseen0 && n < n0)
  {
  }

  /** Blackening the scanned vertex `v` and restoring its Gray gives back the
      labels after the scan. */
  lemma BlackenKeepsScanned(m0: Labels, mid: Labels, c: map<int, Color>, v: int,
                            d: set<int>, unseen0: set<int>)
    requires ScannedFrom(m0, mid, v, d, unseen0)
    requires v in mid.color && mid.color[v] == Gray && c == mid.color[v := Black]
    ensures ScannedFrom(m0, Labels(c[v := Gray], mid.distance, mid.pred), v, d, unseen0)
  {
    assert c[v := Gray] == mid.color;
  }

  /** Taking `w` out of the neighbours still to scan adds it to those scanned. */
  lemma ScannedOneMore(d: set<int>, todo: set<int>, w: int)
    requires todo <= d && w in todo
    ensures (d - todo) + {w} == d - (todo - {w})
  {
  }

  /** What the search has established once the queue is empty. */
  lemma FinishedSearch(vertices: set<int>, adjacent: map<int, set<int>>, s: int, m: Labels,
                       done: seq<int>, unseen: set<int>, m0: Labels)
    requires BfsInv(vertices, adjacent, s, m, done, [], unseen, m0)
    ensures forall v :: v in vertices ==>
      v in m.color && v in m.distance && m.color[v] != Gray && (m.color[v] == Black <==> v in done)
    ensures s in m.color && m.color[s] == Black && s in done
    ensures forall v :: v in done && v != s ==>
      v in m.pred && m.pred[v] in done && m.pred[v] in adjacent && v in adjacent[m.pred[v]]
      && m.pred[v] in m.distance && v in m.distance && m.distance[v] == m.distance[m.pred[v]] + 1
    ensures forall v :: v in done <==> Reachable(adjacent, s, v)
  {
    var seen := set u | u in done;
    forall v | v in done
      ensures Reachable(adjacent, s, v)
    {
      PredecessorWalk(adjacent, m.pred, m.distance, seen, s, v);
    }
    forall v | Reachable(adjacent, s, v)
      ensures v in done
    {
      var p :| IsPath(adjacent, p) && p[0] == s && p[|p| - 1] == v;
      ClosedHoldsWalks(adjacent, seen, p);
    }
  }

  /** A set is empty or has a member to pick (what iterating a hash set relies on). */
  lemma Pickable(s: set<int>)
    ensures s == {} || exists x :: x in s
  {
    if forall x :: x !in s {
      assert s == {};
    }
  }

  class Graph {
    var vertices: set<int>
    var adjacent: map<int, set<int>>
    var color: map<int, Color>
    var distance: map<int, int>
    var pred: map<int, int>

    /** The graph invariant that `add_edge` keeps. */
    ghost predicate Valid()
      reads this
    {
      WellFormed(vertices, adjacent)
    }

    /** `build_graph`: everything empty. */
    constructor BuildGraph()
      ensures Valid()
      ensures vertices == {} && adjacent == map[]
      ensures color == map[] && distance == map[] && pred == map[]
    {
      vertices := {};
      adjacent := map[];
      color := map[];
      distance := map[];
      pred := map[];
    }

    /** `bleach`: every vertex White at distance 0; every other key, and the
        predecessors, as they were. */
    method Bleach()
      modifies this
      ensures vertices == old(vertices) && adjacent == old(adjacent) && pred == old(pred)
      ensures forall v :: v in vertices ==>
        v in color && color[v] == White && v in distance && distance[v] == 0
      ensures forall v :: v !in vertices ==>
        SameAt(color, old(color), v) && SameAt(distance, old(distance), v)
    {
      var todo := vertices;
      while todo != {}
        invariant todo <= vertices
        invariant vertices == old(vertices) && adjacent == old(adjacent) && pred == old(pred)
        invariant forall v :: v in vertices && v !in todo ==>
          v in color && color[v] == White && v in distance && distance[v] == 0
        invariant forall v :: v !in vertices || v in todo ==>
          SameAt(color, old(color), v) && SameAt(distance, old(distance), v)
        decreases todo
      {
        Pickable(todo);
        var v :| v in todo;
        color := color[v := White];
        distance := distance[v := 0];
        todo := todo - {v};
      }
    }

    /** `add_node`: `i` becomes a vertex; nothing changes if it already was one. */
    method AddNode(i: int)
      modifies this`vertices
      ensures vertices == old(vertices) + {i}
      ensures i in old(vertices) ==> vertices == old(vertices)
    {
      if i !in vertices {
        vertices := vertices + {i};
      }
    }

    /** `add_edge(from, to)`: `to` joins the neighbours of `from` and the
        vertices, and gets an (empty) adjacency entry if it had none; `from`
        is NOT made a vertex. */
    method AddEdge(from: int, to: int)
      requires Valid()
      modifies this
      ensures Valid()
      ensures vertices == old(vertices) + {to}
      ensures adjacent.Keys == old(adjacent).Keys + {from, to}
      ensures adjacent[from] ==
        (if from in old(adjacent) then old(adjacent)[from] else {}) + {to}
      ensures forall u :: u in adjacent && u != from ==>
        adjacent[u] == (if u in old(adjacent) then old(adjacent)[u] else {})
      ensures color == old(color) && distance == old(distance) && pred == old(pred)
    {
      if from in adjacent {
        AddNode(to);
        adjacent := adjacent[from := adjacent[from] + {to}];
      } else {
        AddNode(to);
        adjacent := adjacent[from := {to}];
      }

      if to !in adjacent {
        adjacent := adjacent[to := {}];
      }
    }

    /** `bfs(s)`: breadth-first search from `s`, which must have an adjacency
        entry. `order` is the sequence of vertices taken off the queue. */
    method Bfs(s: int) returns (ghost order: seq<int>)
      requires Valid() && s in adjacent
      modifies this
      ensures Valid() && vertices == old(vertices) && adjacent == old(adjacent)
      // the source is taken off the queue first, Black, at distance 0
      ensures |order| > 0 && order[0] == s
      ensures s in color && color[s] == Black && s in distance && distance[s] == 0
      // no vertex is taken off the queue twice
      ensures forall i, j :: 0 <= i < j < |order| ==> order[i] != order[j]
      // no vertex stays Gray; the Black vertices are exactly those taken off the queue
      ensures forall v :: v in vertices ==>
        v in color && v in distance && color[v] != Gray && (color[v] == Black <==> v in order)
      // every other dequeued vertex hangs off a dequeued neighbour, one further away
      ensures forall v :: v in order && v != s ==>
        v in pred && pred[v] in order && pred[v] in adjacent && v in adjacent[pred[v]]
        && pred[v] in distance && v in distance && distance[v] == distance[pred[v]] + 1
      // the dequeued vertices are exactly those reachable from s
      ensures forall v :: v in order <==> Reachable(adjacent, s, v)
      // a vertex left White keeps distance 0 and its old predecessor, and so does s
      ensures SameAt(pred, old(pred), s)
      ensures forall v :: v in vertices && color[v] == White ==>
        distance[v] == 0 && SameAt(pred, old(pred), v)
      // the entries of every other key are untouched
      ensures forall v :: v !in vertices && v != s ==>
        SameAt(color, old(color), v) && SameAt(distance, old(distance), v)
        && SameAt(pred, old(pred), v)
    {
      ghost var m0 := Labels(color, distance, pred);
      Bleach();
      ghost var m1 := Labels(color, distance, pred);
      StartPreserves(vertices, adjacent, s, m1, m0);

      var q := [s];
      color := color[s := Gray];
      distance := distance[s := 0];
      ghost var m := Labels(m1.color[s := Gray], m1.distance[s := 0], m1.pred);
      ghost var unseen;
      order, unseen, m := Explore(s, q, [], vertices - {s}, m, m0);
      FinishedSearch(vertices, adjacent, s, m, order, unseen, m0);
    }

    /** The queue loop of `bfs`: take the head of the queue, scan its
        neighbours, blacken it; until the queue is empty. `done` are the
        vertices dequeued so far, `unseen` those still White, and `m` mirrors
        the labels held in the fields. */
    method Explore(ghost s: int, q0: seq<int>, ghost done: seq<int>, ghost unseen0: set<int>,
                   ghost m: Labels, ghost m0: Labels)
      returns (ghost order: seq<int>, ghost unseen: set<int>, ghost m': Labels)
      requires color == m.color && distance == m.distance && pred == m.pred
      requires BfsInv(vertices, adjacent, s, m, done, q0, unseen0, m0)
      requires |done| == 0 ==> q0 == [s]
      requires |done| > 0 ==> done[0] == s
      modifies this`color, this`distance, this`pred
      ensures color == m'.color && distance == m'.distance && pred == m'.pred
      ensures BfsInv(vertices, adjacent, s, m', order, [], unseen, m0)
      ensures |order| > 0 && order[0] == s
    {
      var q := q0;
      order := done;
      unseen := unseen0;
      m' := m;
      while q != []
        invariant color == m'.color && distance == m'.distance && pred == m'.pred
        invariant BfsInv(vertices, adjacent, s, m', order, q, unseen, m0)
        invariant |order| == 0 ==> q == [s]
        invariant |order| > 0 ==> order[0] == s
        decreases unseen, |q|
      {
        q, order, unseen, m' := ProcessHead(s, q, order, unseen, m', m0);
      }
    }

    /** One round of the queue loop: take `v` off the head of the queue, scan
        its neighbours, blacken it. */
    method ProcessHead(ghost s: int, q0: seq<int>, ghost done: seq<int>, ghost unseen0: set<int>,
                       ghost m: Labels, ghost m0: Labels)
      returns (q: seq<int>, ghost done': seq<int>, ghost unseen: set<int>, ghost m': Labels)
      requires color == m.color && distance == m.distance && pred == m.pred
      requires BfsInv(vertices, adjacent, s, m, done, q0, unseen0, m0) && q0 != []
      requires |done| == 0 ==> q0 == [s]
      requires |done| > 0 ==> done[0] == s
      modifies this`color, this`distance, this`pred
      ensures color == m'.color && distance == m'.distance && pred == m'.pred
      ensures BfsInv(vertices, adjacent, s, m', done', q, unseen, m0)
      ensures |done'| > 0 && done'[0] == s
      ensures unseen < unseen0 || (unseen == unseen0 && |q| < |q0|)
      // the head is dequeued and Black; its White neighbours are discovered
      // and queued after the rest of the queue
      ensures q0[0] in adjacent && done' == done + [q0[0]]
      ensures q0[0] in color && color[q0[0]] == Black
      ensures unseen == unseen0 - adjacent[q0[0]]
      ensures AppendedTo(q0[1..], q, adjacent[q0[0]], unseen0)
      // apart from the head turning Black, exactly the head's White neighbours
      // changed: Gray, one further away than the head, the head as predecessor
      ensures ScannedFrom(Labels(old(color), old(distance), old(pred)),
                          Labels(color[q0[0] := Gray], distance, pred), q0[0], adjacent[q0[0]], unseen0)
    {
      var v := q0[0];
      assert q0 == [v] + q0[1..];
      var rest;
      rest, unseen, m' := ScanNeighbours(s, v, q0[1..], done, unseen0, m, m0);
      ghost var adj := adjacent[v];
      assert unseen == unseen0 - adj && AppendedTo(q0[1..], rest, adj, unseen0);
      RoundProgress(unseen0, adj, unseen, |rest|, |q0|);
      ghost var before := Labels(old(color), old(distance), old(pred));
      ghost var mid := Labels(color, distance, pred);
      assert ScannedFrom(before, mid, v, adj, unseen0);
      done', m' := FinishVertex(s, v, rest, done, unseen, m', m0);
      BlackenKeepsScanned(before, mid, color, v, adj, unseen0);
      q := rest;
    }

    /** The neighbour loop of `bfs`: every White neighbour of `v` turns Gray,
        one further away than `v`, with `v` as predecessor, and joins the
        queue. */
    method ScanNeighbours(ghost s: int, v: int, q0: seq<int>, ghost done: seq<int>,
                          ghost unseen0: set<int>, ghost m: Labels, ghost m0: Labels)
      returns (q: seq<int>, ghost unseen: set<int>, ghost m': Labels)
      requires color == m.color && distance == m.distance && pred == m.pred
      requires BfsInv(vertices, adjacent, s, m, done, [v] + q0, unseen0, m0)
      modifies this`color, this`distance, this`pred
      ensures color == m'.color && distance == m'.distance && pred == m'.pred
      ensures BfsInv(vertices, adjacent, s, m', done, [v] + q, unseen, m0)
      ensures v in adjacent && forall w :: w in adjacent[v] ==> w !in unseen
      ensures unseen <= unseen0 && (unseen == unseen0 ==> |q| == |q0|)
      // exactly the White neighbours of v are discovered and queued after q0;
      // every other entry is as it was
      ensures unseen == unseen0 - adjacent[v]
      ensures ScannedFrom(Labels(old(color), old(distance), old(pred)),
                          Labels(color, distance, pred), v, adjacent[v], unseen0)
      ensures AppendedTo(q0, q, adjacent[v], unseen0)
    {
      assert ([v] + q0)[0] == v;
      assert InScope(vertices, s, v);
      q := q0;
      unseen := unseen0;
      m' := m;
      var todo := adjacent[v];
      while todo != {}
        invariant todo <= adjacent[v]
        invariant color == m'.color && distance == m'.distance && pred == m'.pred
        invariant BfsInv(vertices, adjacent, s, m', done, [v] + q, unseen, m0)
        invariant unseen == unseen0 - (adjacent[v] - todo)
        invariant unseen == unseen0 ==> |q| == |q0|
        invariant ScannedFrom(m, m', v, adjacent[v] - todo, unseen0)
        invariant AppendedTo(q0, q, adjacent[v] - todo, unseen0)
        decreases todo
      {
        Pickable(todo);
        var w :| w in todo;
        q, unseen, m' := ScanNext(s, v, w, q, done, unseen, m', m0, todo, m, unseen0, q0);
        todo := todo - {w};
      }
      assert adjacent[v] - todo == adjacent[v];
    }

    /** One round of the neighbour loop over the neighbours `todo` still to
        scan: `ScanNeighbour` on `w`, and what it does to the scan started
        from `mS`, `unseenS` and `qS`. */
    method ScanNext(ghost s: int, v: int, w: int, q0: seq<int>, ghost done: seq<int>,
                    ghost unseen0: set<int>, ghost m: Labels, ghost m0: Labels,
                    ghost todo: set<int>, ghost mS: Labels, ghost unseenS: set<int>, ghost qS: seq<int>)
      returns (q: seq<int>, ghost unseen: set<int>, ghost m': Labels)
      requires color == m.color && distance == m.distance && pred == m.pred
      requires BfsInv(vertices, adjacent, s, m, done, [v] + q0, unseen0, m0)
      requires v in adjacent && todo <= adjacent[v] && w in todo
      requires v !in unseenS && unseen0 == unseenS - (adjacent[v] - todo)
      requires unseen0 == unseenS ==> |q0| == |qS|
      requires ScannedFrom(mS, m, v, adjacent[v] - todo, unseenS)
      requires AppendedTo(qS, q0, adjacent[v] - todo, unseenS)
      modifies this`color, this`distance, this`pred
      ensures color == m'.color && distance == m'.distance && pred == m'.pred
      ensures BfsInv(vertices, adjacent, s, m', done, [v] + q, unseen, m0)
      ensures unseen == unseenS - (adjacent[v] - (todo - {w}))
      ensures unseen == unseenS ==> |q| == |qS|
      ensures ScannedFrom(mS, m', v, adjacent[v] - (todo - {w}), unseenS)
      ensures AppendedTo(qS, q, adjacent[v] - (todo - {w}), unseenS)
    {
      q, unseen, m' := ScanNeighbour(s, v, w, q0, done, unseen0, m, m0);
      ScanStep(mS, m, m', v, w, adjacent[v] - todo, unseenS, qS, q0, q);
      ScannedOneMore(adjacent[v], todo, w);
    }

    /** One step of the neighbour loop: a White `w` turns Gray, one further
        away than `v`, with `v` as predecessor, and joins the queue; a
        coloured `w` is left alone. */
    method ScanNeighbour(ghost s: int, v: int, w: int, q0: seq<int>, ghost done: seq<int>,
                         ghost unseen0: set<int>, ghost m: Labels, ghost m0: Labels)
      returns (q: seq<int>, ghost unseen: set<int>, ghost m': Labels)
      requires color == m.color && distance == m.distance && pred == m.pred
      requires BfsInv(vertices, adjacent, s, m, done, [v] + q0, unseen0, m0)
      requires v in adjacent && w in adjacent[v]
      modifies this`color, this`distance, this`pred
      ensures color == m'.color && distance == m'.distance && pred == m'.pred
      ensures BfsInv(vertices, adjacent, s, m', done, [v] + q, unseen, m0)
      ensures w !in unseen && unseen == unseen0 - {w}
      // a White `w` is discovered and queued; any other `w` changes nothing
      ensures w in old(color) && v in old(distance)
      ensures old(color)[w] == White <==> w in unseen0
      ensures old(color)[w] == White ==>
        && color == old(color)[w := Gray] && distance == old(distance)[w := old(distance)[v] + 1]
        && pred == old(pred)[w := v] && q == q0 + [w]
      ensures old(color)[w] != White ==>
        color == old(color) && distance == old(distance) && pred == old(pred) && q == q0
      // the same step on the mirrored labels
      ensures m.color[w] == White ==>
        m' == Labels(m.color[w := Gray], m.distance[w := m.distance[v] + 1], m.pred[w := v])
      ensures m.color[w] != White ==> m' == m
      ensures unseen <= unseen0 && (unseen == unseen0 ==> |q| == |q0|)
    {
      assert ([v] + q0)[0] == v;
      assert InScope(vertices, s, v) && InScope(vertices, s, w);
      q, unseen, m' := q0, unseen0, m;
      if color[w] == White {
        DiscoverPreserves(vertices, adjacent, s, m, done, v, q0, unseen0, m0, w);
        color := color[w := Gray];
        distance := distance[w := distance[v] + 1];
        pred := pred[w := v];
        q := q0 + [w];
        unseen := unseen0 - {w};
        m' := Labels(m.color[w := Gray], m.distance[w := m.distance[v] + 1], m.pred[w := v]);
      }
    }

    /** The end of one round of the queue loop: `v`, all of whose neighbours
        are seen, turns Black and is done. */
    method FinishVertex(ghost s: int, v: int, ghost rest: seq<int>, ghost done: seq<int>,
                        ghost unseen: set<int>, ghost m: Labels, ghost m0: Labels)
      returns (ghost done': seq<int>, ghost m': Labels)
      requires color == m.color && distance == m.distance && pred == m.pred
      requires BfsInv(vertices, adjacent, s, m, done, [v] + rest, unseen, m0)
      requires v in adjacent && forall w :: w in adjacent[v] ==> w !in unseen
      modifies this`color
      ensures color == m'.color && distance == m'.distance && pred == m'.pred
      ensures BfsInv(vertices, adjacent, s, m', done', rest, unseen, m0)
      // the Gray head of the queue turns Black and is done
      ensures v in old(color) && old(color)[v] == Gray && color == old(color)[v := Black]
      ensures done' == done + [v]
      ensures |done'| > 0 && done'[0] == (if |done| == 0 then v else done[0])
    {
      assert ([v] + rest)[0] == v;
      FinishPreserves(vertices, adjacent, s, m, done, v, rest, unseen, m0);
      color := color[v := Black];
      done' := done + [v];
      m' := Labels(m.color[v := Black], m.distance, m.pred);
    }
  }
}
