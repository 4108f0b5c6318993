/** The search of the audio codec for a route from a pin to an audio-output widget. */
module HdaRoute {
  const NODES: nat := 256
  const MAX_PATH: nat := 16

  /** The widgets of a codec: which are audio outputs, and the connection list of each. */
  datatype Codec = Codec(output: seq<bool>, links: seq<seq<nat>>) {
    ghost predicate Valid() {
      && |output| == NODES && |links| == NODES
      && forall n, i :: 0 <= n < NODES && 0 <= i < |links[n]| ==> links[n][i] < NODES
    }
  }

  /** A route: the widgets on it, and for each but the last the connection it leaves by. */
  datatype Route = None | Some(nodes: seq<nat>, links: seq<nat>)

  /** The depth-first search, trying connections in order from the i-th on. */
  ghost function Find(c: Codec, nid: nat, depth: nat, visited: set<nat>): (r: Route)
    requires c.Valid() && nid < NODES && depth <= MAX_PATH
    decreases MAX_PATH - depth, 1, 0
  {
    if depth == MAX_PATH || nid in visited then None
    else if c.output[nid] then Some([nid], [])
    else FindFrom(c, nid, depth, visited + {nid}, 0)
  }

  ghost function FindFrom(c: Codec, nid: nat, depth: nat, visited: set<nat>, i: nat): (r: Route)
    requires c.Valid() && nid < NODES && depth < MAX_PATH && i <= |c.links[nid]|
    decreases MAX_PATH - depth, 0, |c.links[nid]| - i
  {
    if i == |c.links[nid]| then None
    else
      var r := Find(c, c.links[nid][i], depth + 1, visited);
      if r.Some? then Some([nid] + r.nodes, [i] + r.links) else FindFrom(c, nid, depth, visited, i + 1)
  }

  // ---------------------------------------------------------------- what a route is

  predicate Linked(c: Codec, a: nat, b: nat)
    requires |c.links| == NODES
  {
    a < NODES && b in c.links[a]
  }

  /** A simple path of widgets that avoids some, starts at nid and ends at an audio output. */
  ghost predicate Path(c: Codec, p: seq<nat>, nid: nat, avoid: set<nat>)
    requires c.Valid()
  {
    && p != [] && p[0] == nid && (forall k | 0 <= k < |p| :: p[k] < NODES && p[k] !in avoid)
    && c.output[p[|p| - 1]]
    && (forall k | 0 <= k < |p| - 1 :: Linked(c, p[k], p[k + 1]))
    && (forall j, k | 0 <= j < k < |p| :: p[j] != p[k])
  }

  /** The connections spell the path edge by edge. */
  ghost predicate Spells(c: Codec, nodes: seq<nat>, links: seq<nat>)
    requires c.Valid() && forall k | 0 <= k < |nodes| :: nodes[k] < NODES
  {
    && |links| == |nodes| - 1
    && forall k | 0 <= k < |links| :: links[k] < |c.links[nodes[k]]| && c.links[nodes[k]][links[k]] == nodes[k + 1]
  }

  lemma PathTail(c: Codec, p: seq<nat>, nid: nat, avoid: set<nat>)
    requires c.Valid() && Path(c, p, nid, avoid) && |p| > 1
    ensures Path(c, p[1..], p[1], avoid + {nid})
  {
    forall k | 0 <= k < |p[1..]| - 1 ensures Linked(c, p[1..][k], p[1..][k + 1]) {
      assert Linked(c, p[k + 1], p[k + 1 + 1]);
    }
  }

  lemma PathCons(c: Codec, p: seq<nat>, next: nat, nid: nat, avoid: set<nat>)
    requires c.Valid() && nid < NODES && nid !in avoid && Linked(c, nid, next) && Path(c, p, next, avoid + {nid})
    ensures Path(c, [nid] + p, nid, avoid)
  {
    var q := [nid] + p;
    forall k | 0 <= k < |q| - 1 ensures Linked(c, q[k], q[k + 1]) {
      if k > 0 {
        assert Linked(c, p[k - 1], p[k - 1 + 1]);
      }
    }
  }

  /** Every route the search returns is a simple path to an audio output, short enough for the path buffer, and its
      connections spell it. */
  lemma {:induction false} FindSound(c: Codec, nid: nat, depth: nat, visited: set<nat>)
    requires c.Valid() && nid < NODES && depth <= MAX_PATH && Find(c, nid, depth, visited).Some?
    ensures var r := Find(c, nid, depth, visited);
            Path(c, r.nodes, nid, visited) && |r.nodes| <= MAX_PATH - depth && Spells(c, r.nodes, r.links)
    decreases MAX_PATH - depth, 1, 0
  {
    if !c.output[nid] {
      FindFromSound(c, nid, depth, visited, 0);
    }
  }

  lemma {:induction false} FindFromSound(c: Codec, nid: nat, depth: nat, visited: set<nat>, i: nat)
    requires c.Valid() && nid < NODES && depth < MAX_PATH && i <= |c.links[nid]| && nid !in visited
    requires FindFrom(c, nid, depth, visited + {nid}, i).Some?
    ensures var r := FindFrom(c, nid, depth, visited + {nid}, i);
            Path(c, r.nodes, nid, visited) && |r.nodes| <= MAX_PATH - depth && Spells(c, r.nodes, r.links)
    decreases MAX_PATH - depth, 0, |c.links[nid]| - i
  {
    var next := c.links[nid][i];
    var r := Find(c, next, depth + 1, visited + {nid});
    if r.Some? {
      FindSound(c, next, depth + 1, visited + {nid});
      PathCons(c, r.nodes, next, nid, visited);
    } else {
      FindFromSound(c, nid, depth, visited, i + 1);
    }
  }

  /** If there is a simple path that fits, the search finds a route. */
  lemma {:induction false} FindComplete(c: Codec, nid: nat, depth: nat, visited: set<nat>, p: seq<nat>)
    requires c.Valid() && nid < NODES && depth <= MAX_PATH
    requires Path(c, p, nid, visited) && |p| <= MAX_PATH - depth
    ensures Find(c, nid, depth, visited).Some?
    decreases |p|
  {
    if !c.output[nid] {
      assert |p| > 1;
      PathTail(c, p, nid, visited);
      assert Linked(c, p[0], p[0 + 1]);
      var i :| 0 <= i < |c.links[nid]| && c.links[nid][i] == p[1];
      FindComplete(c, p[1], depth + 1, visited + {nid}, p[1..]);
      FindFromReaches(c, nid, depth, visited + {nid}, 0, i);
    }
  }

  lemma {:induction false} FindFromReaches(c: Codec, nid: nat, depth: nat, visited: set<nat>, i: nat, j: nat)
    requires c.Valid() && nid < NODES && depth < MAX_PATH && i <= j < |c.links[nid]|
    requires Find(c, c.links[nid][j], depth + 1, visited).Some?
    ensures FindFrom(c, nid, depth, visited, i).Some?
    decreases j - i
  {
    if i < j && Find(c, c.links[nid][i], depth + 1, visited) == None {
      FindFromReaches(c, nid, depth, visited, i + 1, j);
    }
  }

  /** The search succeeds exactly when a simple path of at most 16 widgets leads from the start to an audio output. */
  lemma FindIff(c: Codec, nid: nat)
    requires c.Valid() && nid < NODES
    ensures Find(c, nid, 0, {}).Some? <==> exists p :: Path(c, p, nid, {}) && |p| <= MAX_PATH
  {
    if Find(c, nid, 0, {}).Some? {
      FindSound(c, nid, 0, {});
      assert Path(c, Find(c, nid, 0, {}).nodes, nid, {});
    }
    if p :| Path(c, p, nid, {}) && |p| <= MAX_PATH {
      FindComplete(c, nid, 0, {}, p);
    }
  }

  // ---------------------------------------------------------------- the driver's form

  ghost function Marked(visited: seq<bool>): set<nat> {
    set n: nat | n < |visited| && visited[n]
  }

  lemma MarkedSet(visited: seq<bool>, n: nat)
    requires n < |visited|
    ensures Marked(visited[n := true]) == Marked(visited) + {n}
  {
  }

  class Search {
    const path: array<nat>
    const connection: array<nat>
    const visited: array<bool>
    var length: nat

    ghost predicate Shaped() {
      && path.Length == MAX_PATH && connection.Length == MAX_PATH && visited.Length == NODES && path != connection
    }

    constructor ()
      ensures Shaped() && fresh(path) && fresh(connection) && fresh(visited)
      ensures forall n | 0 <= n < NODES :: !visited[n]
    {
      path := new nat[16](k => 0);
      connection := new nat[16](k => 0);
      visited := new bool[256](k => false);
      length := 0;
    }

    /** Depth-first from widget nid, `depth` widgets into the path. It returns what the search function does; on success
        the path and connection buffers hold the route from `depth` on, on failure no widget is left marked that was not
        marked before, and in either case what lies before `depth` is untouched. */
    method FindDacPath(c: Codec, nid: nat, depth: nat) returns (ok: bool)
      requires Shaped() && c.Valid() && nid < NODES && depth <= MAX_PATH
      modifies this, path, connection, visited
      ensures ok <==> Find(c, nid, depth, Marked(old(visited[..]))).Some?
      ensures ok ==> var r := Find(c, nid, depth, Marked(old(visited[..])));
                && depth < length <= MAX_PATH && path[depth..length] == r.nodes
                  && connection[depth..length - 1] == r.links
      ensures !ok ==> visited[..] == old(visited[..])
      ensures path[..depth] == old(path[..depth]) && connection[..depth] == old(connection[..depth])
      decreases MAX_PATH - depth
    {
      if depth >= MAX_PATH || visited[nid] {
        return false;
      }
      ghost var before := visited[..];
      MarkedSet(before, nid);
      visited[nid] := true;
      path[depth] := nid;
      if c.output[nid] {
        length := depth + 1;
        return true;
      }
      for i := 0 to |c.links[nid]|
        invariant visited[..] == before[nid := true] && path[depth] == nid
        invariant path[..depth] == old(path[..depth]) && connection[..depth] == old(connection[..depth])
        invariant Find(c, nid, depth, Marked(before)) == FindFrom(c, nid, depth, Marked(before) + {nid}, i)
      {
        ok := FindDacPath(c, c.links[nid][i], depth + 1);
        assert path[..depth + 1][depth] == nid;
        assert path[..depth] == path[..depth + 1][..depth] && connection[..depth] == connection[..depth + 1][..depth];
        if ok {
          ghost var tail := connection[depth + 1..length - 1];
          connection[depth] := i;
          assert connection[depth..length - 1] == [i] + tail;
          assert path[depth..length] == [nid] + path[depth + 1..length];
          return true;
        }
      }
      visited[nid] := false;
      assert visited[..] == before;
      ok := false;
    }
  }
}
