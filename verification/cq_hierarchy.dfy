/**
  The Hasse diagram of MPEC constraint qualifications: six named nodes placed
  in four layers, and the implication arrows between them. An arrow A -> B
  reads "A implies B", so a node that reaches every other is the strongest
  qualification and a node every other reaches is the weakest.
*/
module CqHierarchy {
  import opened Geometry

  /** A constraint qualification, named by its short key ("LICQ", ...). */
  type Key = string

  /** Layout position of each node's centre. */
  const Nodes: map<Key, Point> := map[
    "LICQ" := Point(5.0, 8.5),
    "MFCQ" := Point(3.0, 6.5),
    "CRCQ" := Point(7.0, 6.5),
    "ACQ"  := Point(3.0, 4.5),
    "CPLD" := Point(7.0, 4.5),
    "GCQ"  := Point(5.0, 2.5)
  ]

  /** The bold mathtext label drawn in each node. */
  const Labels: map<Key, string> := map[
    "LICQ" := @"$\mathbf{MPEC\text{-}LICQ}$",
    "MFCQ" := @"$\mathbf{MPEC\text{-}MFCQ}$",
    "CRCQ" := @"$\mathbf{MPEC\text{-}CRCQ}$",
    "ACQ"  := @"$\mathbf{MPEC\text{-}ACQ}$",
    "CPLD" := @"$\mathbf{MPEC\text{-}CPLD}$",
    "GCQ"  := @"$\mathbf{MPEC\text{-}GCQ}$"
  ]

  /** The subtitle drawn under each label. */
  const FullNames: map<Key, string> := map[
    "LICQ" := "Linear Independence CQ",
    "MFCQ" := "Mangasarian-Fromovitz CQ",
    "CRCQ" := "Constant Rank CQ",
    "ACQ"  := "Abadie CQ",
    "CPLD" := "Constant Positive Linear Dependence",
    "GCQ"  := "Guignard CQ"
  ]

  /** The implication arrows, as (from, to) pairs in drawing order. */
  const Implications: seq<(Key, Key)> := [
    ("LICQ", "MFCQ"),
    ("LICQ", "CRCQ"),
    ("MFCQ", "ACQ"),
    ("CRCQ", "CPLD"),
    ("ACQ", "GCQ"),
    ("CPLD", "GCQ")
  ]

  /** The vertical distance between consecutive layers of the layout. */
  const LayerGap: real := 2.0

  predicate Edge(a: Key, b: Key) {
    (a, b) in Implications
  }

  /** A chain of nodes, each implying the next. */
  predicate IsPath(p: seq<Key>) {
    && |p| >= 1
    && (forall i :: 0 <= i < |p| ==> p[i] in Nodes)
    && (forall i :: 0 <= i < |p| - 1 ==> Edge(p[i], p[i + 1]))
  }

  /** `a` implies `b` through a chain of drawn arrows (possibly empty). */
  ghost predicate Reaches(a: Key, b: Key) {
    exists p :: IsPath(p) && p[0] == a && p[|p| - 1] == b
  }

  /** A node that implies every node of the diagram. */
  ghost predicate Strongest(k: Key) {
    k in Nodes && forall m :: m in Nodes ==> Reaches(k, m)
  }

  /** A node that every node of the diagram implies. */
  ghost predicate Weakest(k: Key) {
    k in Nodes && forall m :: m in Nodes ==> Reaches(m, k)
  }

  /** The label text the table spells out for a key. */
  function LabelOf(k: Key): string {
    @"$\mathbf{MPEC\text{-}" + k + "}$"
  }

  /** Both ends of every arrow are nodes, so the position lookups never fail. */
  lemma EndpointsAreNodes()
    ensures forall i :: 0 <= i < |Implications| ==>
      Implications[i].0 in Nodes && Implications[i].1 in Nodes
  {
  }

  /** The label and subtitle tables cover exactly the nodes. */
  lemma TablesShareKeys()
    ensures Labels.Keys == Nodes.Keys
    ensures FullNames.Keys == Nodes.Keys
  {
  }

  /** Every label is the bold "MPEC-" form of its own key. */
  lemma LabelsNameTheirKeys()
    ensures forall k :: k in Labels ==> Labels[k] == LabelOf(k)
  {
    assert Labels["LICQ"] == LabelOf("LICQ");
    assert Labels["MFCQ"] == LabelOf("MFCQ");
    assert Labels["CRCQ"] == LabelOf("CRCQ");
    assert Labels["ACQ"] == LabelOf("ACQ");
    assert Labels["CPLD"] == LabelOf("CPLD");
    assert Labels["GCQ"] == LabelOf("GCQ");
  }

  /** Every arrow goes down exactly one layer of the layout. */
  lemma EdgesDescendOneLayer(a: Key, b: Key)
    requires Edge(a, b)
    ensures a in Nodes && b in Nodes
    ensures Nodes[a].y - Nodes[b].y == LayerGap
  {
  }

  /** A chain of n arrows descends exactly n layers. */
  lemma {:induction false} PathDescends(p: seq<Key>)
    requires IsPath(p)
    ensures Nodes[p[0]].y - Nodes[p[|p| - 1]].y == LayerGap * ((|p| - 1) as real)
    decreases |p|
  {
    if |p| > 1 {
      var q := p[..|p| - 1];
      assert IsPath(q) by {
        forall i | 0 <= i < |q| - 1
          ensures Edge(q[i], q[i + 1])
        {
          assert q[i] == p[i] && q[i + 1] == p[i + 1];
        }
      }
      PathDescends(q);
      EdgesDescendOneLayer(p[|p| - 2], p[|p| - 1]);
    }
  }

  /** No chain of one or more arrows returns to where it started. */
  lemma Acyclic(p: seq<Key>)
    requires IsPath(p) && |p| >= 2
    ensures p[0] != p[|p| - 1]
  {
    PathDescends(p);
  }

  /**
    The drawing is a Hasse diagram: an arrow is the only chain between its two
    ends, so no arrow is implied by a longer chain.
  */
  lemma NoShortcutArrows(a: Key, b: Key, p: seq<Key>)
    requires Edge(a, b)
    requires IsPath(p) && p[0] == a && p[|p| - 1] == b
    ensures p == [a, b]
  {
    PathDescends(p);
    EdgesDescendOneLayer(a, b);
    assert |p| == 2;
  }

  /** Nothing implies LICQ, and GCQ implies nothing. */
  lemma SourceAndSink()
    ensures forall a :: !Edge(a, "LICQ")
    ensures forall b :: !Edge("GCQ", b)
  {
  }

  /** Only a chain of no arrows ends at LICQ. */
  lemma OnlyLicqReachesLicq(k: Key)
    requires Reaches(k, "LICQ")
    ensures k == "LICQ"
  {
    var p :| IsPath(p) && p[0] == k && p[|p| - 1] == "LICQ";
    assert |p| > 1 ==> Edge(p[|p| - 2], "LICQ");
  }

  /** Only a chain of no arrows starts at GCQ. */
  lemma GcqReachesOnlyItself(k: Key)
    requires Reaches("GCQ", k)
    ensures k == "GCQ"
  {
    var p :| IsPath(p) && p[0] == "GCQ" && p[|p| - 1] == k;
    assert |p| > 1 ==> Edge("GCQ", p[1]);
  }

  /** LICQ implies every qualification of the diagram. */
  lemma LicqReachesAll()
    ensures Strongest("LICQ")
  {
    forall m | m in Nodes
      ensures Reaches("LICQ", m)
    {
      var p: seq<Key>;
      if m == "LICQ" {
        p := ["LICQ"];
      } else if m == "MFCQ" {
        p := ["LICQ", "MFCQ"];
      } else if m == "CRCQ" {
        p := ["LICQ", "CRCQ"];
      } else if m == "ACQ" {
        p := ["LICQ", "MFCQ", "ACQ"];
      } else if m == "CPLD" {
        p := ["LICQ", "CRCQ", "CPLD"];
      } else {
        p := ["LICQ", "MFCQ", "ACQ", "GCQ"];
      }
      assert IsPath(p) && p[|p| - 1] == m;
    }
  }

  /** Every qualification of the diagram implies GCQ. */
  lemma AllReachGcq()
    ensures Weakest("GCQ")
  {
    forall m | m in Nodes
      ensures Reaches(m, "GCQ")
    {
      var p: seq<Key>;
      if m == "GCQ" {
        p := ["GCQ"];
      } else if m == "ACQ" {
        p := ["ACQ", "GCQ"];
      } else if m == "CPLD" {
        p := ["CPLD", "GCQ"];
      } else if m == "MFCQ" {
        p := ["MFCQ", "ACQ", "GCQ"];
      } else if m == "CRCQ" {
        p := ["CRCQ", "CPLD", "GCQ"];
      } else {
        p := ["LICQ", "MFCQ", "ACQ", "GCQ"];
      }
      assert IsPath(p) && p[0] == m;
    }
  }

  /**
    The note under the diagram: LICQ is the strongest qualification and GCQ
    the weakest, and each is the only node with that property.
  */
  lemma StrongestAndWeakest(k: Key)
    ensures Strongest(k) <==> k == "LICQ"
    ensures Weakest(k) <==> k == "GCQ"
  {
    LicqReachesAll();
    AllReachGcq();
    if Strongest(k) {
      OnlyLicqReachesLicq(k);
    }
    if Weakest(k) {
      GcqReachesOnlyItself(k);
    }
  }

  /** The fill and border colours of a node box. */
  datatype NodeStyle = NodeStyle(fill: string, border: string)

  const ColorNodeFill: string := "#e3f2fd"
  const ColorNodeEdge: string := "#1565c0"
  const ColorStrong: string := "#0d47a1"
  const ColorWeak: string := "#78909c"

  /**
    The colour choice for a node box: a stronger blue for LICQ, a light grey
    for GCQ, and the common palette for the others. The highlighted boxes are
    exactly the strongest and the weakest qualification.
  */
  function StyleOf(k: Key): (s: NodeStyle)
    ensures s.fill == "#bbdefb" <==> Strongest(k)
    ensures s.fill == "#eceff1" <==> Weakest(k)
    ensures s.border == ColorStrong <==> Strongest(k)
    ensures s.border == ColorWeak <==> Weakest(k)
    ensures !Strongest(k) && !Weakest(k) ==> s == NodeStyle(ColorNodeFill, ColorNodeEdge)
  {
    StrongestAndWeakest(k);
    if k == "LICQ" then
      NodeStyle("#bbdefb", ColorStrong)
    else if k == "GCQ" then
      NodeStyle("#eceff1", ColorWeak)
    else
      NodeStyle(ColorNodeFill, ColorNodeEdge)
  }

  /**
    The position lookups of the arrow loop: for each implication in order,
    the centres of its two nodes; every arrow points strictly downward.
  */
  function ArrowCentres(): (r: seq<(Point, Point)>)
    ensures |r| == |Implications|
    ensures forall i :: 0 <= i < |r| ==>
      && Implications[i].0 in Nodes && Implications[i].1 in Nodes
      && r[i] == (Nodes[Implications[i].0], Nodes[Implications[i].1])
      && r[i].0.y > r[i].1.y
  {
    seq(|Implications|, i requires 0 <= i < |Implications| =>
      (Nodes[Implications[i].0], Nodes[Implications[i].1]))
  }
}
