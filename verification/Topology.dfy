/** Merging per-device neighbour lists into one graph of undirected edges. */
module Topology {
  import opened Wrappers

  datatype Link = Link(a: string, aPort: string, b: string, bPort: string)

  /** One end of a link. */
  datatype End = End(host: string, port: string)

  /** A link's two ends, local end first. */
  type Key = (End, End)

  function KeyOf(l: Link): Key {
    (End(l.a, l.aPort), End(l.b, l.bPort))
  }

  function Reverse(k: Key): Key {
    (k.1, k.0)
  }

  /** The undirected edge: both ends, in no order. */
  function EdgeOf(k: Key): set<End> {
    {k.0, k.1}
  }

  predicate SameEdge(l: Link, m: Link) {
    EdgeOf(KeyOf(l)) == EdgeOf(KeyOf(m))
  }

  // ---- the merge, which looks up texts ----

  function KeyText(k: Key): string {
    k.0.host + "|" + k.0.port + "::" + k.1.host + "|" + k.1.port
  }

  /** The text a link is stored under. */
  function TextOf(l: Link): string {
    KeyText(KeyOf(l))
  }

  /** The text under which the other device's report of the link would be stored. */
  function BackText(l: Link): string {
    KeyText(Reverse(KeyOf(l)))
  }

  /** The texts and edges by the link's four names. */
  lemma TextsByNames(l: Link, m: Link)
    ensures TextOf(l) == l.a + "|" + l.aPort + "::" + l.b + "|" + l.bPort
    ensures BackText(l) == l.b + "|" + l.bPort + "::" + l.a + "|" + l.aPort
    ensures SameEdge(l, m) <==>
            || (l.a == m.a && l.aPort == m.aPort && l.b == m.b && l.bPort == m.bPort)
            || (l.a == m.b && l.aPort == m.bPort && l.b == m.a && l.bPort == m.aPort)
  {
    EdgeEquality(KeyOf(l), KeyOf(m));
  }

  type Seen = map<string, Link>

  function Meet(seen: Seen, l: Link): Seen {
    if BackText(l) in seen then seen else seen[TextOf(l) := l]
  }

  function SeenAfter(links: seq<Link>): Seen {
    if links == [] then map[] else Meet(SeenAfter(links[..|links| - 1]), links[|links| - 1])
  }

  function NodesAfter(links: seq<Link>): set<string> {
    if links == [] then {}
    else
      var before, l := links[..|links| - 1], links[|links| - 1];
      if BackText(l) in SeenAfter(before) then NodesAfter(before) else NodesAfter(before) + {l.a, l.b}
  }

  /** A graph of undirected edges, each held as one of the links that reported it. */
  datatype Graph = Graph(nodeCount: nat, edgeCount: nat, links: set<Link>)

  function GraphOf(links: seq<Link>): Graph {
    Graph(|NodesAfter(links)|, |SeenAfter(links)|, SeenAfter(links).Values)
  }

  /** What the merge returns: the counts, and the links in order of their local ends. */
  datatype Report = Report(nodeCount: nat, edgeCount: nat, links: seq<Link>)

  ghost predicate Lists(r: Report, g: Graph) {
    && r.nodeCount == g.nodeCount && r.edgeCount == g.edgeCount
    && (forall l :: l in r.links <==> l in g.links)
    && |r.links| == |g.links| && Ascending(r.links)
  }

  ghost predicate Listed(perDevice: map<string, seq<Link>>, devices: set<string>, l: Link) {
    exists d | d in devices && d in perDevice :: l in perDevice[d]
  }

  /**
   * Visits the devices in any order; `visited` is the order in which the links were met. If the texts tell the edges
   * apart the graph is exact, whatever that order was.
   */
  method Merge(perDevice: map<string, seq<Link>>) returns (r: Report, ghost visited: seq<Link>)
    ensures forall l :: l in visited <==> Listed(perDevice, perDevice.Keys, l)
    ensures Lists(r, GraphOf(visited))
    ensures TextsTell(visited) ==> Exact(GraphOf(visited), visited)
  {
    var seen: Seen, nodes: set<string> := map[], {};
    visited := [];
    var todo := perDevice.Keys;
    ghost var done: set<string> := {};
    while todo != {}
      invariant todo <= perDevice.Keys && done == perDevice.Keys - todo
      invariant seen == SeenAfter(visited) && nodes == NodesAfter(visited)
      invariant forall l :: l in visited <==> Listed(perDevice, done, l)
      decreases |todo|
    {
      var device := AnyOf(todo);
      forall l
        ensures l in visited + perDevice[device] <==> Listed(perDevice, done + {device}, l)
      {
        ListedWithOneMore(perDevice, done, device, l);
      }
      seen, nodes := MergeList(seen, nodes, perDevice[device], visited);
      visited := visited + perDevice[device];
      todo, done := todo - {device}, done + {device};
    }
    assert done == perDevice.Keys;
    var listed := Sort(seen.Values);
    r := Report(|nodes|, |seen|, listed);
    if TextsTell(visited) {
      TellingGraphIsExact(visited);
    }
  }

  /** One device's list, after the links `visited`. */
  method MergeList(seen0: Seen, nodes0: set<string>, links: seq<Link>, ghost visited: seq<Link>)
    returns (seen: Seen, nodes: set<string>)
    requires seen0 == SeenAfter(visited) && nodes0 == NodesAfter(visited)
    ensures seen == SeenAfter(visited + links) && nodes == NodesAfter(visited + links)
  {
    seen, nodes := seen0, nodes0;
    ghost var met := visited;
    assert visited + links[..0] == visited;
    for k := 0 to |links|
      invariant met == visited + links[..k]
      invariant seen == SeenAfter(met) && nodes == NodesAfter(met)
    {
      assert visited + links[..k + 1] == met + [links[k]];
      seen, nodes := MergeLink(seen, nodes, links[k], met);
      met := met + [links[k]];
    }
    assert links[..|links|] == links;
  }

  method MergeLink(seen0: Seen, nodes0: set<string>, l: Link, ghost met: seq<Link>)
    returns (seen: Seen, nodes: set<string>)
    requires seen0 == SeenAfter(met) && nodes0 == NodesAfter(met)
    ensures seen == SeenAfter(met + [l]) && nodes == NodesAfter(met + [l])
  {
    OneMore(met, l);
    seen, nodes := seen0, nodes0;
    if BackText(l) in seen {
      return;
    }
    seen := seen[TextOf(l) := l];
    nodes := nodes + {l.a, l.b};
  }

  lemma OneMore(links: seq<Link>, l: Link)
    ensures SeenAfter(links + [l]) == Meet(SeenAfter(links), l)
    ensures NodesAfter(links + [l]) ==
            if BackText(l) in SeenAfter(links) then NodesAfter(links) else NodesAfter(links) + {l.a, l.b}
  {
    assert (links + [l])[..|links|] == links;
  }

  lemma ListedWithOneMore(perDevice: map<string, seq<Link>>, devices: set<string>, device: string, l: Link)
    requires device in perDevice
    ensures Listed(perDevice, devices + {device}, l) <==> Listed(perDevice, devices, l) || l in perDevice[device]
  {
  }

  // ---- the order of the result ----

  /** Comparison of strings, character by character. */
  predicate Before(s: string, t: string) {
    t != "" && (s == "" || s[0] < t[0] || (s[0] == t[0] && Before(s[1..], t[1..])))
  }

  /** By the local host, then the local port. */
  predicate Less(l: Link, m: Link) {
    if l.a != m.a then Before(l.a, m.a) else Before(l.aPort, m.aPort)
  }

  ghost predicate InOrder(links: seq<Link>) {
    forall i, j | 0 <= i < j < |links| :: !Less(links[j], links[i])
  }

  /** No later link has an earlier local host, nor, at the same host, an earlier local port. */
  ghost predicate Ascending(links: seq<Link>) {
    forall i, j | 0 <= i < j < |links| ::
      !Before(links[j].a, links[i].a) && (links[i].a == links[j].a ==> !Before(links[j].aPort, links[i].aPort))
  }

  lemma InOrderIsAscending(links: seq<Link>)
    requires InOrder(links)
    ensures Ascending(links)
  {
    forall i, j | 0 <= i < j < |links|
      ensures !Before(links[j].a, links[i].a)
      ensures links[i].a == links[j].a ==> !Before(links[j].aPort, links[i].aPort)
    {
      assert !Less(links[j], links[i]);
      NotBeforeItself(links[i].a);
    }
  }

  /** After a common beginning, `s` ends or has the smaller character. */
  ghost predicate DiffersAt(s: string, t: string, p: nat) {
    p <= |s| && p < |t| && s[..p] == t[..p] && (p == |s| || s[p] < t[p])
  }

  lemma DiffersLater(s: string, t: string, p: nat)
    requires DiffersAt(s, t, p) && p > 0
    ensures s != "" && t != "" && s[0] == t[0] && DiffersAt(s[1..], t[1..], p - 1)
  {
    assert s[0] == s[..p][0] == t[..p][0] == t[0];
    assert s[1..][..p - 1] == s[..p][1..] && t[1..][..p - 1] == t[..p][1..];
  }

  /** A string comes before another if it ends or has the smaller character where they first differ. */
  lemma {:induction false} BeforeMeaning(s: string, t: string)
    ensures Before(s, t) <==> exists p: nat :: DiffersAt(s, t, p)
  {
    if s != "" && t != "" {
      BeforeMeaning(s[1..], t[1..]);
    }
    if p: nat :| DiffersAt(s, t, p) {
      if p > 0 {
        DiffersLater(s, t, p);
      }
    }
    if Before(s, t) {
      if s != "" && s[0] == t[0] {
        var p: nat :| DiffersAt(s[1..], t[1..], p);
        assert s[..p + 1] == [s[0]] + s[1..][..p] && t[..p + 1] == [t[0]] + t[1..][..p];
        assert DiffersAt(s, t, p + 1);
      } else {
        assert DiffersAt(s, t, 0);
      }
    }
  }

  lemma {:induction false} NotBeforeItself(s: string)
    ensures !Before(s, s)
  {
    if s != "" {
      NotBeforeItself(s[1..]);
    }
  }

  lemma {:induction false} BeforeChains(s: string, t: string, u: string)
    requires Before(s, t) && Before(t, u)
    ensures Before(s, u)
  {
    if s != "" && s[0] == t[0] == u[0] {
      BeforeChains(s[1..], t[1..], u[1..]);
    }
  }

  lemma LessChains(l: Link, m: Link, n: Link)
    requires Less(l, m) && Less(m, n)
    ensures Less(l, n)
  {
    NotBeforeItself(l.a);
    if l.a != m.a && m.a != n.a {
      BeforeChains(l.a, m.a, n.a);
    } else if l.a == m.a == n.a {
      BeforeChains(l.aPort, m.aPort, n.aPort);
    }
  }

  lemma LessIsOneWay(l: Link, m: Link)
    requires Less(l, m)
    ensures !Less(m, l)
  {
    if Less(m, l) {
      LessChains(l, m, l);
      NotBeforeItself(l.aPort);
    }
  }

  /** Some order that the comparison allows; links with the same local end may come either way round. */
  method Sort(links: set<Link>) returns (out: seq<Link>)
    ensures forall l :: l in out <==> l in links
    ensures |out| == |links| && Ascending(out)
  {
    out := [];
    var todo := links;
    while todo != {}
      invariant todo <= links
      invariant forall l :: l in out <==> l in links - todo
      invariant |out| + |todo| == |links| && InOrder(out)
      decreases |todo|
    {
      var l := AnyOf(todo);
      out := Insert(out, l);
      todo := todo - {l};
    }
    InOrderIsAscending(out);
  }

  method Insert(links: seq<Link>, l: Link) returns (out: seq<Link>)
    requires InOrder(links)
    ensures forall m :: m in out <==> m in links || m == l
    ensures |out| == |links| + 1 && InOrder(out)
  {
    var p := 0;
    while p < |links| && !Less(l, links[p])
      invariant p <= |links|
      invariant forall i | 0 <= i < p :: !Less(l, links[i])
    {
      p := p + 1;
    }
    InsertKeepsOrder(links, l, p);
    out := links[..p] + [l] + links[p..];
    assert links == links[..p] + links[p..];
  }

  lemma InsertKeepsOrder(links: seq<Link>, l: Link, p: nat)
    requires InOrder(links) && p <= |links|
    requires forall i | 0 <= i < p :: !Less(l, links[i])
    requires p < |links| ==> Less(l, links[p])
    ensures InOrder(links[..p] + [l] + links[p..])
  {
    forall j | p <= j < |links|
      ensures !Less(links[j], l)
    {
      LessIsOneWay(l, links[p]);
      if Less(links[j], l) {
        LessChains(links[j], l, links[p]);
      }
    }
  }

  // ---- what an exact graph is ----

  function EdgesOf(links: seq<Link>): set<set<End>> {
    set l | l in links :: EdgeOf(KeyOf(l))
  }

  function HostsOf(links: seq<Link>): set<string> {
    (set l | l in links :: l.a) + (set l | l in links :: l.b)
  }

  /** A graph that holds each undirected edge of the links once and counts its edges and hosts rightly. */
  ghost predicate Exact(g: Graph, links: seq<Link>) {
    && KeepsOnePerEdge(g.links, links)
    && g.edgeCount == |g.links| == |EdgesOf(links)|
    && g.nodeCount == |HostsOf(links)|
  }

  /** Of the links given, exactly one is kept for each undirected edge. */
  ghost predicate KeepsOnePerEdge(kept: set<Link>, links: seq<Link>) {
    && (forall l | l in kept :: l in links)
    && (forall l, m | l in kept && m in kept && SameEdge(l, m) :: l == m)
    && (forall l | l in links :: KeepsEdge(kept, EdgeOf(KeyOf(l))))
  }

  ghost predicate KeepsEdge(kept: set<Link>, e: set<End>) {
    exists l :: l in kept && EdgeOf(KeyOf(l)) == e
  }

  lemma EdgeEquality(k: Key, m: Key)
    ensures EdgeOf(k) == EdgeOf(m) <==> k == m || k == Reverse(m)
  {
    if EdgeOf(k) == EdgeOf(m) {
      assert k.0 in EdgeOf(m) && k.1 in EdgeOf(m) && m.0 in EdgeOf(k) && m.1 in EdgeOf(k);
    }
  }

  lemma EdgesAppend(links: seq<Link>, l: Link)
    ensures EdgesOf(links + [l]) == EdgesOf(links) + {EdgeOf(KeyOf(l))}
    ensures HostsOf(links + [l]) == HostsOf(links) + {l.a, l.b}
  {
    assert forall x :: x in links + [l] <==> x in links || x == l;
  }

  // ---- exactly when the graph is exact ----

  /** Links of different edges have different texts, and neither has the text of the other reversed. */
  predicate TextsTell(links: seq<Link>) {
    forall l, m | l in links && m in links :: SameEdge(l, m) || (TextOf(l) != TextOf(m) && BackText(l) != TextOf(m))
  }

  /** Every entry stands at its own text, and no two entries are the same edge. */
  ghost predicate OnePerEdge(seen: Seen) {
    && (forall t | t in seen :: TextOf(seen[t]) == t)
    && (forall t, u | t in seen && u in seen && SameEdge(seen[t], seen[u]) :: t == u)
  }

  ghost predicate HasEdge(seen: Seen, e: set<End>) {
    exists t :: t in seen && EdgeOf(KeyOf(seen[t])) == e
  }

  /** The entries are links that have been met, and their texts and this link's tell their edges apart. */
  ghost predicate Tells(seen: Seen, l: Link) {
    forall t | t in seen :: SameEdge(l, seen[t]) || (TextOf(l) != t && BackText(l) != t)
  }

  lemma SameEdgeTexts(l: Link, m: Link)
    requires SameEdge(l, m)
    ensures TextOf(m) == TextOf(l) || TextOf(m) == BackText(l)
  {
    EdgeEquality(KeyOf(l), KeyOf(m));
  }

  /** The two lookups find the edge, if it is there. */
  lemma LookupFindsEdge(seen: Seen, l: Link)
    requires OnePerEdge(seen) && Tells(seen, l)
    ensures BackText(l) in seen || TextOf(l) in seen <==> HasEdge(seen, EdgeOf(KeyOf(l)))
  {
    if HasEdge(seen, EdgeOf(KeyOf(l))) {
      var t :| t in seen && EdgeOf(KeyOf(seen[t])) == EdgeOf(KeyOf(l));
      SameEdgeTexts(l, seen[t]);
    }
    if BackText(l) in seen {
      assert SameEdge(l, seen[BackText(l)]);
    } else if TextOf(l) in seen {
      assert SameEdge(l, seen[TextOf(l)]);
    }
  }

  lemma MeetKeepsOnePerEdge(seen: Seen, l: Link)
    requires OnePerEdge(seen) && Tells(seen, l)
    ensures OnePerEdge(Meet(seen, l))
    ensures |Meet(seen, l)| == if HasEdge(seen, EdgeOf(KeyOf(l))) then |seen| else |seen| + 1
  {
    LookupFindsEdge(seen, l);
    if BackText(l) !in seen {
      forall t | t in seen && SameEdge(l, seen[t])
        ensures t == TextOf(l)
      {
        SameEdgeTexts(l, seen[t]);
      }
      PutKeepsOnePerEdge(seen, l);
    }
  }

  lemma PutKeepsOnePerEdge(seen: Seen, l: Link)
    requires OnePerEdge(seen)
    requires forall t | t in seen && SameEdge(l, seen[t]) :: t == TextOf(l)
    ensures OnePerEdge(seen[TextOf(l) := l])
  {
    var after := seen[TextOf(l) := l];
    forall t, u | t in after && u in after && SameEdge(after[t], after[u])
      ensures t == u
    {
      assert t != TextOf(l) ==> after[t] == seen[t];
      assert u != TextOf(l) ==> after[u] == seen[u];
    }
  }

  lemma MeetAddsEdge(seen: Seen, l: Link, e: set<End>)
    requires OnePerEdge(seen) && Tells(seen, l)
    ensures HasEdge(Meet(seen, l), e) <==> HasEdge(seen, e) || e == EdgeOf(KeyOf(l))
  {
    LookupFindsEdge(seen, l);
    var after, back := Meet(seen, l), BackText(l);
    if back !in seen {
      assert after[TextOf(l)] == l;
      if HasEdge(seen, e) && e != EdgeOf(KeyOf(l)) {
        var t :| t in seen && EdgeOf(KeyOf(seen[t])) == e;
        assert t != TextOf(l);
        assert after[t] == seen[t];
      }
    }
  }

  lemma {:induction false} EntriesWereMet(links: seq<Link>)
    ensures forall t | t in SeenAfter(links) :: SeenAfter(links)[t] in links && TextOf(SeenAfter(links)[t]) == t
  {
    if links != [] {
      EntriesWereMet(links[..|links| - 1]);
    }
  }

  lemma EntriesTell(links: seq<Link>, l: Link)
    requires TextsTell(links + [l])
    ensures Tells(SeenAfter(links), l)
  {
    EntriesWereMet(links);
    assert l in links + [l];
    forall t | t in SeenAfter(links)
      ensures SameEdge(l, SeenAfter(links)[t]) || (TextOf(l) != t && BackText(l) != t)
    {
      assert SeenAfter(links)[t] in links + [l];
    }
  }

  lemma TellingPrefix(links: seq<Link>, l: Link)
    requires TextsTell(links + [l])
    ensures TextsTell(links)
  {
    assert forall m | m in links :: m in links + [l];
  }

  /** Where the texts tell the edges apart, the entries are one per edge and their edges are those of the links. */
  lemma {:induction false} MergeKeepsEdges(links: seq<Link>)
    requires TextsTell(links)
    ensures OnePerEdge(SeenAfter(links))
    ensures forall e :: HasEdge(SeenAfter(links), e) <==> e in EdgesOf(links)
  {
    if links != [] {
      var before, l := links[..|links| - 1], links[|links| - 1];
      assert links == before + [l];
      TellingPrefix(before, l);
      MergeKeepsEdges(before);
      EntriesTell(before, l);
      MeetKeepsOnePerEdge(SeenAfter(before), l);
      EdgesAppend(before, l);
      forall e
        ensures HasEdge(SeenAfter(links), e) <==> e in EdgesOf(links)
      {
        MeetAddsEdge(SeenAfter(before), l, e);
      }
    }
  }

  lemma {:induction false} MergeCountsEdges(links: seq<Link>)
    requires TextsTell(links)
    ensures |SeenAfter(links)| == |EdgesOf(links)|
  {
    if links != [] {
      var before, l := links[..|links| - 1], links[|links| - 1];
      assert links == before + [l];
      TellingPrefix(before, l);
      MergeCountsEdges(before);
      MergeKeepsEdges(before);
      EntriesTell(before, l);
      MeetKeepsOnePerEdge(SeenAfter(before), l);
      EdgesAppend(before, l);
    }
  }

  /** A report of an edge that is already there brings no new host. */
  lemma {:induction false} MergeKeepsHosts(links: seq<Link>)
    requires TextsTell(links)
    ensures NodesAfter(links) == HostsOf(links)
  {
    if links != [] {
      var before, l := links[..|links| - 1], links[|links| - 1];
      assert links == before + [l];
      TellingPrefix(before, l);
      MergeKeepsHosts(before);
      EdgesAppend(before, l);
      EntriesTell(before, l);
      if BackText(l) in SeenAfter(before) {
        var m := SeenAfter(before)[BackText(l)];
        EntriesWereMet(before);
        EdgeEquality(KeyOf(l), KeyOf(m));
      }
    }
  }

  /** For texts that tell the edges apart, looking up both texts of a link finds exactly whether its edge was met. */
  lemma {:induction false} TextKeysAgree(links: seq<Link>, l: Link)
    requires TextsTell(links + [l])
    ensures BackText(l) in SeenAfter(links) || TextOf(l) in SeenAfter(links) <==> EdgeOf(KeyOf(l)) in EdgesOf(links)
  {
    TellingPrefix(links, l);
    MergeKeepsEdges(links);
    EntriesTell(links, l);
    LookupFindsEdge(SeenAfter(links), l);
  }

  lemma {:induction false} ValuesCount<K, V>(m: map<K, V>)
    requires forall k, l | k in m && l in m && m[k] == m[l] :: k == l
    ensures |m.Values| == |m|
  {
    if m.Keys != {} {
      var k :| k in m;
      var rest := m - {k};
      forall v
        ensures v in m.Values <==> v in rest.Values || v == m[k]
      {
        if v in m.Values {
          var l :| l in m && m[l] == v;
          assert l == k || (l in rest && rest[l] == v);
        }
      }
      assert m.Values == rest.Values + {m[k]};
      ValuesCount(rest);
    } else {
      assert m.Values == {};
    }
  }

  lemma TellingGraphIsExact(links: seq<Link>)
    requires TextsTell(links)
    ensures Exact(GraphOf(links), links)
  {
    var seen := SeenAfter(links);
    MergeKeepsEdges(links);
    MergeCountsEdges(links);
    MergeKeepsHosts(links);
    EntriesWereMet(links);
    ValuesCount(seen);
    forall l | l in links
      ensures KeepsEdge(seen.Values, EdgeOf(KeyOf(l)))
    {
      assert HasEdge(seen, EdgeOf(KeyOf(l)));
      var t :| t in seen && EdgeOf(KeyOf(seen[t])) == EdgeOf(KeyOf(l));
      assert seen[t] in seen.Values;
    }
  }

  /** Every entry for one of the two edges stands at the text `t`, and something stands there. */
  ghost predicate Confined(seen: Seen, t: string, l: Link, m: Link) {
    t in seen && forall u | u in seen && (SameEdge(l, seen[u]) || SameEdge(m, seen[u])) :: u == t
  }

  lemma MeetKeepsConfined(seen: Seen, t: string, l: Link, m: Link, x: Link)
    requires Confined(seen, t, l, m) && TextOf(m) == t && (TextOf(l) == t || BackText(l) == t)
    ensures Confined(Meet(seen, x), t, l, m)
  {
    EdgeEquality(KeyOf(l), KeyOf(x));
    EdgeEquality(KeyOf(m), KeyOf(x));
  }

  /** Once a link has been met whose text another edge shares, both edges stay at that text. */
  lemma {:induction false} ClashIsConfined(links: seq<Link>, l: Link, m: Link)
    requires links != [] && links[0] == m && (TextOf(l) == TextOf(m) || BackText(l) == TextOf(m))
    ensures Confined(SeenAfter(links), TextOf(m), l, m)
  {
    var before := links[..|links| - 1];
    if before == [] {
      assert SeenAfter(links) == map[TextOf(m) := m];
    } else {
      ClashIsConfined(before, l, m);
      MeetKeepsConfined(SeenAfter(before), TextOf(m), l, m, links[|links| - 1]);
    }
  }

  lemma ConfinedIsInexact(links: seq<Link>, t: string, l: Link, m: Link)
    requires l in links && m in links && !SameEdge(l, m) && Confined(SeenAfter(links), t, l, m)
    ensures !Exact(GraphOf(links), links)
  {
    var kept := SeenAfter(links).Values;
    if KeepsEdge(kept, EdgeOf(KeyOf(l))) {
      KeptStandsAt(SeenAfter(links), t, l, m, l);
    }
    if KeepsEdge(kept, EdgeOf(KeyOf(m))) {
      KeptStandsAt(SeenAfter(links), t, l, m, m);
    }
  }

  lemma KeptStandsAt(seen: Seen, t: string, l: Link, m: Link, x: Link)
    requires Confined(seen, t, l, m) && (x == l || x == m) && KeepsEdge(seen.Values, EdgeOf(KeyOf(x)))
    ensures SameEdge(x, seen[t])
  {
    var y :| y in seen.Values && EdgeOf(KeyOf(y)) == EdgeOf(KeyOf(x));
    var u :| u in seen && seen[u] == y;
  }

  ghost predicate SameLinks(x: seq<Link>, y: seq<Link>) {
    forall l :: l in x <==> l in y
  }

  /**
   * The graph of some links is exact for every order in which they may be visited if and only if their texts tell
   * their edges apart.
   */
  lemma GraphIsExact(links: seq<Link>)
    ensures TextsTell(links) <==> forall order | SameLinks(order, links) :: Exact(GraphOf(order), order)
  {
    if TextsTell(links) {
      forall order | SameLinks(order, links)
        ensures Exact(GraphOf(order), order)
      {
        TellingGraphIsExact(order);
      }
    } else {
      var l, m :| l in links && m in links && !SameEdge(l, m) && (TextOf(l) == TextOf(m) || BackText(l) == TextOf(m));
      var order := [m] + links;
      ClashIsConfined(order, l, m);
      ConfinedIsInexact(order, TextOf(m), l, m);
      assert SameLinks(order, links);
    }
  }

  lemma SameLinksSameSets(x: seq<Link>, y: seq<Link>)
    requires SameLinks(x, y)
    ensures EdgesOf(x) == EdgesOf(y) && HostsOf(x) == HostsOf(y)
  {
    forall e
      ensures e in EdgesOf(x) <==> e in EdgesOf(y)
    {
    }
  }

  /** Where the texts tell the edges apart, two orders of the same links give the same edges and counts. */
  lemma OrderDoesNotMatter(x: seq<Link>, y: seq<Link>)
    requires TextsTell(x) && SameLinks(x, y)
    ensures GraphOf(x).edgeCount == GraphOf(y).edgeCount && GraphOf(x).nodeCount == GraphOf(y).nodeCount
    ensures forall e :: KeepsEdge(GraphOf(x).links, e) <==> KeepsEdge(GraphOf(y).links, e)
  {
    SameLinksSameSets(x, y);
    TellingGraphIsExact(x);
    TellingGraphIsExact(y);
    ExactEdges(GraphOf(x), x);
    ExactEdges(GraphOf(y), y);
  }

  lemma ExactEdges(g: Graph, links: seq<Link>)
    requires Exact(g, links)
    ensures forall e :: KeepsEdge(g.links, e) <==> e in EdgesOf(links)
  {
  }

  // ---- names whose texts always tell ----

  predicate PlainHost(host: string) {
    '|' !in host
  }

  /** No bar, no doubled colon and no colon at the end. */
  predicate PlainPort(port: string) {
    '|' !in port && forall i | 0 <= i < |port| && port[i] == ':' :: i + 1 < |port| && port[i + 1] != ':'
  }

  /** The names in a key are such that its text determines them. */
  predicate Plain(k: Key) {
    PlainHost(k.0.host) && PlainPort(k.0.port) && PlainHost(k.1.host) && PlainPort(k.1.port)
  }

  predicate AllPlain(links: seq<Link>) {
    forall l | l in links :: Plain(KeyOf(l))
  }

  /** For plain names the text determines the ends, so looking up texts is looking up ends. */
  lemma PlainKeysAreDistinct(k: Key, m: Key)
    requires Plain(k) && Plain(m) && KeyText(k) == KeyText(m)
    ensures k == m
  {
    var k1, m1 := k.1.host + ['|'] + k.1.port, m.1.host + ['|'] + m.1.port;
    KeyTextParts(k);
    KeyTextParts(m);
    Peel(k.0.host, k.0.port + "::" + k1, m.0.host, m.0.port + "::" + m1);
    PeelPort(k.0.port, k1, m.0.port, m1);
    Peel(k.1.host, k.1.port, m.1.host, m.1.port);
  }

  lemma KeyTextParts(k: Key)
    ensures KeyText(k) == k.0.host + ['|'] + (k.0.port + "::" + (k.1.host + ['|'] + k.1.port))
  {
  }

  lemma Peel(x: string, rest: string, y: string, rest': string)
    requires '|' !in x && '|' !in y
    requires x + ['|'] + rest == y + ['|'] + rest'
    ensures x == y && rest == rest'
  {
    var s := x + ['|'] + rest;
    assert s[|x|] == '|' && s[|y|] == '|';
    assert forall i | 0 <= i < |x| :: s[i] == x[i];
    assert forall i | 0 <= i < |y| :: s[i] == y[i];
    assert |x| == |y|;
    assert x == s[..|x|] && y == s[..|y|];
    assert rest == s[|x| + 1..] && rest' == s[|y| + 1..];
  }

  lemma PeelPort(x: string, rest: string, y: string, rest': string)
    requires PlainPort(x) && PlainPort(y) && x + "::" + rest == y + "::" + rest'
    ensures x == y && rest == rest'
  {
    NotShorter(x, rest, y, rest');
    NotShorter(y, rest', x, rest);
    var s := x + "::" + rest;
    assert x == s[..|x|] && y == s[..|y|];
    assert rest == s[|x| + 2..] && rest' == s[|y| + 2..];
  }

  lemma NotShorter(x: string, rest: string, y: string, rest': string)
    requires PlainPort(y) && x + "::" + rest == y + "::" + rest'
    ensures |x| >= |y|
  {
    var s := x + "::" + rest;
    assert s[|x|] == ':' && s[|x| + 1] == ':';
    assert forall i | 0 <= i < |y| :: s[i] == y[i];
  }

  /** Links with plain names are merged exactly, in every order. */
  lemma PlainTextsTell(links: seq<Link>)
    requires AllPlain(links)
    ensures TextsTell(links)
    ensures forall order | SameLinks(order, links) :: Exact(GraphOf(order), order)
  {
    forall l, m | l in links && m in links && (TextOf(l) == TextOf(m) || BackText(l) == TextOf(m))
      ensures SameEdge(l, m)
    {
      PlainKeysAreDistinct(if TextOf(l) == TextOf(m) then KeyOf(l) else Reverse(KeyOf(l)), KeyOf(m));
      EdgeEquality(KeyOf(l), KeyOf(m));
    }
    GraphIsExact(links);
  }

  // ---- names whose texts do not ----

  /** Two links between different ends that share a text: only one is counted, in either order. */
  lemma BarsCanCollide()
    ensures
      var x, y := Link("r1|x", "p", "r2", "q"), Link("r1", "x|p", "r2", "q");
      !SameEdge(x, y) && GraphOf([x, y]).edgeCount == 1 && GraphOf([y, x]).edgeCount == 1
  {
    var x, y := Link("r1|x", "p", "r2", "q"), Link("r1", "x|p", "r2", "q");
    EdgeEquality(KeyOf(x), KeyOf(y));
    assert TextOf(x) == "r1|x|p::r2|q" == TextOf(y);
    assert BackText(x) == "r2|q::r1|x|p" == BackText(y);
    assert "r1|x|p::r2|q"[1] != "r2|q::r1|x|p"[1];
    TwoAtOneText(x, y);
    TwoAtOneText(y, x);
  }

  lemma TwoAtOneText(x: Link, y: Link)
    requires TextOf(x) == TextOf(y) && BackText(y) != TextOf(x)
    ensures SeenAfter([x, y]) == map[TextOf(y) := y]
  {
    assert [x, y][..1] == [x] && [x][..0] == [];
    assert SeenAfter([x]) == map[TextOf(x) := x];
  }

  const NESTED := Link("r1", "p", "r2", "q::r3|s")
  const NESTED_BACK := Link("r2", "q::r3|s", "r1", "p")
  const NESTING := Link("r1", "p::r2|q", "r3", "s")

  lemma NestedTexts()
    ensures TextOf(NESTED) == TextOf(NESTING) && TextOf(NESTED)[..2] == "r1"
    ensures BackText(NESTED)[..2] == "r2" && BackText(NESTING)[..2] == "r3"
  {
    assert TextOf(NESTED) == "r1|p::r2|q::r3|s" == TextOf(NESTING);
  }

  /** Three links of two edges for which the order of visiting decides whether one edge is counted or two. */
  lemma OrderCanMatter()
    ensures
      var l, r, m := NESTED, NESTED_BACK, NESTING;
      && SameLinks([l, r, m], [r, m, l]) && SameEdge(l, r) && !SameEdge(l, m)
      && GraphOf([l, r, m]).edgeCount == 1 && GraphOf([r, m, l]).edgeCount == 2
  {
    EdgeEquality(KeyOf(NESTED), KeyOf(NESTED_BACK));
    EdgeEquality(KeyOf(NESTED), KeyOf(NESTING));
    NestedTexts();
    assert "r1"[1] != "r2"[1] && "r1"[1] != "r3"[1] && "r2"[1] != "r3"[1];
    OrderDecides(NESTED, NESTED_BACK, NESTING);
  }

  lemma OrderDecides(l: Link, r: Link, m: Link)
    requires TextOf(l) == TextOf(m) == BackText(r) && TextOf(r) == BackText(l) != TextOf(l)
    requires BackText(m) != TextOf(r) && BackText(m) != TextOf(l)
    ensures |SeenAfter([l, r, m])| == 1 && |SeenAfter([r, m, l])| == 2
  {
    assert [l, r, m][..2] == [l, r] && [l, r][..1] == [l] && [l][..0] == [];
    assert SeenAfter([l]) == map[TextOf(l) := l];
    assert SeenAfter([l, r]) == map[TextOf(l) := l];
    assert [r, m, l][..2] == [r, m] && [r, m][..1] == [r] && [r][..0] == [];
    assert SeenAfter([r]) == map[TextOf(r) := r];
    assert SeenAfter([r, m]) == map[TextOf(r) := r, TextOf(m) := m];
  }
}
