/**
 * The objects behind copy-on-write clusters, internal/engine/cluster.go and index.go: clusters with
 * their maps of indices, and indices with their reference counts. `world` is the set of all clusters;
 * the module CopyOnWrite has the interleavings of their operations.
 */
module Clusters {

  class Index {
    var refs: int
    var content: string   // settings, mapping, aliases and documents
    var closed: bool

    constructor (content: string)
      ensures this.content == content && refs == 1 && !closed
    {
      this.content, refs, closed := content, 1, false;
    }

    /** The last reference closes the index. */
    method Release()
      modifies this
      ensures refs == old(refs) - 1 && content == old(content) && closed == (old(closed) || refs == 0)
    {
      refs := refs - 1;
      if refs == 0 {
        closed := true;
      }
    }
  }

  // ---------------------------------------------------------------- exact reference counts

  type Entry = (Cluster, string)

  /** All entries of all clusters. */
  ghost function Entries(world: set<Cluster>): map<Entry, Index>
    reads world
  {
    map c, n | c in world && n in c.indices :: (c, n) := c.indices[n]
  }

  ghost function Holders(entries: map<Entry, Index>, ix: Index): set<Entry> {
    set e | e in entries && entries[e] == ix
  }

  /** Every index that some cluster has is open, and its count is the number of entries that lead to it. */
  ghost predicate Counted(world: set<Cluster>)
    reads world, Entries(world).Values
  {
    forall ix :: ix in Entries(world).Values ==> ix.refs == |Holders(Entries(world), ix)| && !ix.closed
  }

  /** The same, while one reference of an index is about to be released. */
  ghost predicate CountedBut(world: set<Cluster>, ix: Index)
    reads world, Entries(world).Values
  {
    forall jx :: jx in Entries(world).Values ==> jx.refs == |Holders(Entries(world), jx)| + (if jx == ix then 1 else 0) && !jx.closed
  }

  lemma Added(entries: map<Entry, Index>, e: Entry, ix: Index, jx: Index)
    requires e !in entries
    ensures |Holders(entries[e := ix], jx)| == |Holders(entries, jx)| + if jx == ix then 1 else 0
  {
    assert Holders(entries[e := ix], jx) == if jx == ix then Holders(entries, jx) + {e} else Holders(entries, jx);
  }

  lemma Removed(entries: map<Entry, Index>, e: Entry, jx: Index)
    requires e in entries
    ensures |Holders(entries - {e}, jx)| == |Holders(entries, jx)| - if jx == entries[e] then 1 else 0
  {
    assert Holders(entries - {e}, jx) == if jx == entries[e] then Holders(entries, jx) - {e} else Holders(entries, jx);
    assert jx == entries[e] ==> e in Holders(entries, jx);
  }

  // ---------------------------------------------------------------- clusters

  class Cluster {
    var indices: map<string, Index>

    constructor ()
      ensures indices == map[]
    {
      indices := map[];
    }

    /** What can be read through the cluster. */
    ghost function Contents(): map<string, string>
      reads this, indices.Values
    {
      map n | n in indices :: indices[n].content
    }

    /** One more entry for an index of this cluster, and one more reference. */
    method Share(n: Cluster, k: string, ghost world: set<Cluster>)
      requires this in world && n in world && k in indices && k !in n.indices && Counted(world)
      modifies n, indices[k]
      ensures Counted(world) && n.indices == old(n.indices[k := indices[k]])
      ensures forall c :: c in world && c != n ==> c.indices == old(c.indices)
      ensures old(indices[k]).content == old(indices[k].content)
    {
      hide Holders;
      var ix := indices[k];
      ghost var before := Entries(world);
      assert before[(this, k)] == ix;
      ix.refs := ix.refs + 1;
      n.indices := n.indices[k := ix];
      assert Entries(world) == before[(n, k) := ix];
      forall jx | jx in Entries(world).Values ensures jx.refs == |Holders(Entries(world), jx)| && !jx.closed {
        Added(before, (n, k), ix, jx);
      }
    }

    /** A cluster without indices. */
    static method NewCluster(ghost world: set<Cluster>) returns (n: Cluster)
      requires Counted(world)
      ensures fresh(n) && n.indices == map[] && Counted(world + {n})
    {
      n := new Cluster();
      assert Entries(world + {n}) == Entries(world);
    }

    /** Shares every index, and counts one more reference for it. */
    method Clone(ghost world: set<Cluster>) returns (n: Cluster)
      requires this in world && Counted(world)
      modifies indices.Values
      ensures fresh(n) && n.indices == indices && n.Contents() == Contents()
      ensures Counted(world + {n})
      ensures Contents() == old(Contents())
      ensures forall ix: Index :: ix in old(indices.Values) ==> ix.content == old(ix.content)
    {
      hide Counted, Entries, Holders;
      n := NewCluster(world);
      ghost var w := world + {n};
      var left := indices.Keys;
      while left != {}
        invariant left <= indices.Keys && Counted(w)
        invariant n.indices == map k | k in indices && k !in left :: indices[k]
        invariant forall c :: c in world ==> c.indices == old(c.indices)
        invariant forall ix: Index :: ix in old(indices.Values) ==> ix.content == old(ix.content)
        decreases |left|
      {
        var k :| k in left;
        Share(n, k, w);
        left := left - {k};
      }
      assert n.indices == indices;
    }

    /** `delete(c.indices, k)`. */
    method RemoveEntry(k: string, ghost world: set<Cluster>)
      requires this in world && k in indices
      modifies this
      ensures indices == old(indices) - {k} && Entries(world) == old(Entries(world)) - {(this, k)}
    {
      indices := indices - {k};
    }

    /** An entry of this cluster goes, with its reference. */
    method Drop(k: string, ghost world: set<Cluster>)
      requires this in world && k in indices && Counted(world)
      modifies this, indices[k]
      ensures Counted(world) && indices == old(indices) - {k}
      ensures old(indices[k]).content == old(indices[k].content)
      ensures old(indices[k]).closed <==> old(indices[k].refs) == 1
    {
      hide Holders;
      var ix := indices[k];
      ghost var before := Entries(world);
      assert before[(this, k)] == ix;
      RemoveEntry(k, world);
      ix.Release();
      assert Entries(world) == before - {(this, k)};
      forall jx | jx in Entries(world).Values ensures jx.refs == |Holders(Entries(world), jx)| && !jx.closed {
        Removed(before, (this, k), jx);
        StillHeld(Entries(world), jx);
      }
    }

    /** Every reference is given back; an index that nobody else has is closed. */
    method Close(ghost world: set<Cluster>)
      requires this in world && Counted(world)
      modifies this, indices.Values
      ensures indices == map[] && Counted(world)
      ensures forall ix: Index :: ix in old(indices.Values) ==> ix.content == old(ix.content)
    {
      ghost var all := indices.Values;
      while indices != map[]
        invariant indices.Values <= all && Counted(world)
        invariant forall k :: k in indices ==> k in old(indices) && indices[k] == old(indices)[k]
        invariant forall ix: Index :: ix in all ==> ix.content == old(ix.content)
        decreases |indices|
      {
        var k :| k in indices;
        Smaller(indices, k);
        assert indices[k] in all;
        Drop(k, world);
      }
    }

    /**
     * The index for writing, or null for an unknown name. Nobody else has it, and no cluster reads
     * anything else than before.
     */
    method Writable(name: string, ghost world: set<Cluster>) returns (ix: Index?)
      requires this in world && Counted(world)
      modifies this, indices.Values
      ensures Counted(world) && (ix == null <==> name !in old(indices))
      ensures indices.Keys == old(indices.Keys) && forall k :: k in indices && k != name ==> indices[k] == old(indices[k])
      ensures ix != null ==> indices[name] == ix && ix.content == old(indices[name].content)
      ensures ix != null ==> ix.refs == 1 && Holders(Entries(world), ix) == {(this, name)}
      ensures ix != null ==> ix == old(indices[name]) || fresh(ix)
      ensures forall c :: c in world ==> c.Contents() == old(c.Contents())
    {
      if name !in indices {
        return null;
      }
      ix := indices[name];
      assert Entries(world)[(this, name)] == ix;
      if ix.refs > 1 {
        var n := new Index(ix.content);
        Replace(name, n, world);
        ix := n;
        forall c | c in world ensures c.Contents() == old(c.Contents()) {
          SameReading(c);
        }
      }
      assert Entries(world)[(this, name)] == ix;
      OnlyHolder(Entries(world), (this, name), ix);
    }

    /** A private copy takes the place of a shared index, which has one reference too many then. */
    method SetEntry(name: string, n: Index, ghost world: set<Cluster>)
      requires this in world && name in indices && Counted(world) && n !in Entries(world).Values && n.refs == 1 && !n.closed
      modifies this
      ensures indices == old(indices)[name := n]
      ensures CountedBut(world, old(indices)[name])
    {
      hide Holders;
      ghost var before := Entries(world);
      ghost var e: Entry := (this, name);
      assert before[e] == indices[name];
      indices := indices[name := n];
      assert Entries(world) == (before - {e})[e := n];
      forall jx | jx in Entries(world).Values
        ensures jx.refs == |Holders(Entries(world), jx)| + (if jx == before[e] then 1 else 0) && !jx.closed
      {
        Replaced(before, e, n, jx);
      }
    }

    method Replace(name: string, n: Index, ghost world: set<Cluster>)
      requires this in world && name in indices && Counted(world) && n !in Entries(world).Values
      requires n.refs == 1 && !n.closed && indices[name].refs > 1
      modifies this, indices[name]
      ensures Counted(world) && indices == old(indices)[name := n]
      ensures old(indices[name]).content == old(indices[name].content) && n.refs == 1
    {
      hide Holders;
      var ix := indices[name];
      assert Entries(world)[(this, name)] == ix;
      SetEntry(name, n, world);
      ix.Release();
    }

    /** A write that changes the content of an index of this cluster changes what this cluster reads, and no other. */
    method Write(name: string, content: string, ghost world: set<Cluster>) returns (known: bool)
      requires this in world && Counted(world)
      modifies this, indices.Values
      ensures Counted(world) && known == (name in old(indices))
      ensures Contents() == if known then old(Contents())[name := content] else old(Contents())
      ensures forall c :: c in world && c != this ==> c.Contents() == old(c.Contents())
    {
      var ix := Writable(name, world);
      known := ix != null;
      if known {
        label Copied:
        hide Holders, Counted;
        OwnIndex(world, this, name);
        ix.content := content;
        assert Counted(world) by { CountedStays@Copied(world); }
      }
    }
  }

  /** An index with one holder is read through that entry alone. */
  lemma OwnIndex(world: set<Cluster>, o: Cluster, name: string)
    requires o in world && name in o.indices && Holders(Entries(world), o.indices[name]) == {(o, name)}
    ensures forall c, k :: c in world && k in c.indices && (c != o || k != name) ==> c.indices[k] != o.indices[name]
  {
    forall c, k | c in world && k in c.indices && (c != o || k != name) ensures c.indices[k] != o.indices[name] {
      assert Entries(world)[(c, k)] == c.indices[k];
      assert (c, k) !in Holders(Entries(world), o.indices[name]);
    }
  }

  /** What a cluster reads is what its entries hold. */
  twostate lemma SameReading(c: Cluster)
    requires c.indices.Keys == old(c.indices).Keys
    requires forall k :: k in c.indices ==> c.indices[k].content == old(c.indices[k].content)
    ensures c.Contents() == old(c.Contents())
  {
  }

  /** Counts do not depend on contents. */
  twostate lemma CountedStays(world: set<Cluster>)
    requires old(Counted(world)) && forall c :: c in world ==> c.indices == old(c.indices)
    requires forall ix: Index :: ix in Entries(world).Values ==> ix.refs == old(ix.refs) && ix.closed == old(ix.closed)
    ensures Counted(world)
  {
    assert Entries(world) == old(Entries(world));
  }

  lemma StillHeld(entries: map<Entry, Index>, ix: Index)
    requires ix in entries.Values
    ensures |Holders(entries, ix)| > 0
  {
    var e :| e in entries && entries[e] == ix;
    assert e in Holders(entries, ix);
  }

  lemma Replaced(entries: map<Entry, Index>, e: Entry, n: Index, jx: Index)
    requires e in entries && n !in entries.Values
    ensures |Holders((entries - {e})[e := n], jx)| == if jx == n then 1 else |Holders(entries, jx)| - if jx == entries[e] then 1 else 0
    ensures jx in (entries - {e})[e := n].Values ==> jx == n || jx in entries.Values
  {
    Removed(entries, e, jx);
    Added(entries - {e}, e, n, jx);
    NotHeld(entries, n);
  }

  lemma NotHeld(entries: map<Entry, Index>, ix: Index)
    requires ix !in entries.Values
    ensures |Holders(entries, ix)| == 0
  {
    assert Holders(entries, ix) == {};
  }

  lemma OnlyHolder(entries: map<Entry, Index>, e: Entry, ix: Index)
    requires e in entries && entries[e] == ix && |Holders(entries, ix)| <= 1
    ensures Holders(entries, ix) == {e} && |Holders(entries, ix)| == 1
  {
    var all := Holders(entries, ix);
    assert e in all;
    assert |all - {e}| == |all| - 1;
    assert all == {e} + (all - {e});
  }

  lemma Smaller(m: map<string, Index>, k: string)
    requires k in m
    ensures |m - {k}| < |m|
  {
    assert (m - {k}).Keys == m.Keys - {k};
    assert |(m - {k}).Keys| == |m - {k}| && |m.Keys| == |m|;
  }
}
