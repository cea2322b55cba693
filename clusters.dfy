/**
 * Cluster (model/Cluster.java): an immutable, labelled set of network nodes.
 * Nodes are CyNode handles; a Cluster is an object, so two clusters with the
 * same members are still two different clusters.
 */
module Clusters {

  /** Identity of a network node (a CyNode). */
  type NodeRef = nat

  /** The distinct elements of a sequence. */
  function Elements(s: seq<NodeRef>): set<NodeRef>
  {
    set i | 0 <= i < |s| :: s[i]
  }

  /** No element occurs twice. */
  predicate Distinct(s: seq<NodeRef>)
  {
    forall i, j :: 0 <= i < j < |s| ==> s[i] != s[j]
  }

  class Cluster {
    const labelText: string
    /** Fixed at construction: the fields are constants, so membership never changes. */
    const nodes: set<NodeRef>

    /**
     * Copies the caller's collection into a set of its own: later writes to
     * `members` cannot reach `nodes`, and duplicates collapse.
     */
    constructor (members: array<NodeRef>, text: string)
      ensures forall n :: Contains(n) <==> exists i :: 0 <= i < members.Length && members[i] == n
      ensures NodeCount() <= members.Length
      ensures Distinct(members[..]) ==> NodeCount() == members.Length
      ensures GetLabel() == text && ToString() == text
    {
      this.labelText := text;
      this.nodes := Elements(members[..]);
      new;
      DistinctCount(members[..]);
    }

    /** Membership in the set copied at construction. */
    predicate Contains(n: NodeRef): (b: bool)
      ensures b <==> n in nodes
    {
      n in nodes
    }

    /** The member set, read-only: a value that agrees with `Contains` everywhere. */
    function GetNodes(): (r: set<NodeRef>)
      ensures forall n :: n in r <==> Contains(n)
    {
      nodes
    }

    function NodeCount(): (r: nat)
      ensures r == |GetNodes()|
    {
      |nodes|
    }

    /** The label text given at construction; the field is a constant, so it never changes. */
    function GetLabel(): (r: string)
      ensures r == labelText
    {
      labelText
    }

    function ToString(): (r: string)
      ensures r == GetLabel()
    {
      labelText
    }
  }

  /**
   * The number of distinct nodes of a collection is at most its length, and
   * equals it exactly when nothing is repeated.
   */
  lemma {:induction false} DistinctCount(s: seq<NodeRef>)
    ensures |Elements(s)| <= |s|
    ensures |Elements(s)| == |s| <==> Distinct(s)
  {
    if s == [] {
      assert Elements(s) == {};
    } else {
      var init := s[..|s| - 1];
      var last := s[|s| - 1];
      DistinctCount(init);
      assert Elements(s) == Elements(init) + {last} by {
        forall x | x in Elements(s) ensures x in Elements(init) + {last} {
          var i :| 0 <= i < |s| && s[i] == x;
          if i < |s| - 1 { assert init[i] == x; }
        }
        forall x | x in Elements(init) ensures x in Elements(s) {
          var i :| 0 <= i < |init| && init[i] == x;
          assert s[i] == x;
        }
      }
      if last in Elements(init) {
        var i :| 0 <= i < |init| && init[i] == last;
        assert s[i] == s[|s| - 1];
        assert !Distinct(s);
        assert Elements(s) == Elements(init);
      } else {
        assert |Elements(s)| == |Elements(init)| + 1;
        if Distinct(init) {
          forall i, j | 0 <= i < j < |s| ensures s[i] != s[j] {
            if j < |s| - 1 {
              assert init[i] == s[i] && init[j] == s[j];
            } else {
              assert init[i] == s[i];
            }
          }
        } else {
          var i, j :| 0 <= i < j < |init| && init[i] == init[j];
          assert s[i] == s[j];
        }
      }
    }
  }
}
