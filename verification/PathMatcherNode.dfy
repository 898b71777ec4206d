/** The mutable node of path_matcher_node.h, proved to be the trie of module PathTrie. */
module PathMatcherNode {
  import opened Wrappers
  import opened PathTrie

  class PathMatcherNode<D> {
    var results: map<string, Entry<D>>
    var children: map<string, PathMatcherNode<D>>
    var wildcard: bool
    ghost var Contents: Trie<D>
    ghost var Repr: set<PathMatcherNode<D>>

    /** Each child owns its nodes, apart from its parent and siblings, and holds the
        sub-trie that Contents has under the same key. */
    ghost predicate Valid()
      reads this, Repr
      ensures Valid() ==> this in Repr
      decreases Repr
    {
      && this in Repr
      && Contents.results == results
      && Contents.wildcard == wildcard
      && Contents.children.Keys == children.Keys
      && (forall k :: k in children ==> OwnsChild(k))
      && (forall j, k :: j in children && k in children && j != k ==> children[j].Repr !! children[k].Repr)
    }

    ghost predicate OwnsChild(k: string)
      requires this in Repr && Contents.children.Keys == children.Keys && k in children
      reads this, Repr
      decreases Repr, 0
    {
      var child := children[k];
      && child in Repr && child.Repr <= Repr && this !in child.Repr
      && child.Valid() && child.Contents == Contents.children[k]
    }

    /** The trie that the nodes below hold, if they are in order. */
    ghost function Held(): Option<Trie<D>>
      reads this, Repr
    {
      if Valid() then Some(Contents) else None
    }

    twostate lemma HeldStays()
      requires unchanged(this) && forall o :: o in old(Repr) ==> unchanged(o)
      ensures Held() == old(Held())
    {
      assert Valid() == old(Valid());
    }

    constructor ()
      ensures Valid() && fresh(Repr)
      ensures Contents == Empty() && Repr == {this}
    {
      results, children, wildcard := map[], map[], false;
      Contents := Empty();
      Repr := {this};
    }

    /** A child whose nodes did not change is still owned. */
    twostate lemma StaysOwned(k: string)
      requires old(Valid()) && k in old(children) && k in children && children[k] == old(children[k])
      requires this in Repr && old(Repr) <= Repr && Contents.children.Keys == children.Keys
      requires Contents.children[k] == old(Contents).children[k]
      requires forall o :: o in old(children[k].Repr) ==> unchanged(o)
      ensures OwnsChild(k) && children[k].Repr == old(children[k].Repr)
    {
      assert old(OwnsChild(k));
      children[k].HeldStays();
    }

    /** An empty child was linked under a new key. */
    twostate lemma ChildAdded(key: string, new child: PathMatcherNode<D>)
      requires old(Valid()) && key !in old(children)
      requires children == old(children)[key := child] && results == old(results) && wildcard == old(wildcard)
      requires Contents == old(Contents).(children := old(Contents).children[key := Empty()])
      requires Repr == old(Repr) + {child} && fresh(child)
      requires child.Valid() && child.Repr == {child} && child.Contents == Empty()
      requires forall o :: o in old(Repr) && o != this ==> unchanged(o)
      ensures Valid()
    {
      forall k | k in old(children)
        ensures OwnsChild(k) && children[k].Repr == old(children[k].Repr) && child !in children[k].Repr
      {
        assert old(OwnsChild(k));
        StaysOwned(k);
      }
      assert OwnsChild(key);
      forall j, k | j in children && k in children && j != k ensures children[j].Repr !! children[k].Repr {
        assert j in old(children) && k in old(children) ==> old(children[j].Repr !! children[k].Repr);
      }
    }

    /** LookupOrInsertNew: the child under a key, created when there is none. */
    method LookupOrInsertNew(key: string) returns (child: PathMatcherNode<D>)
      requires Valid()
      modifies this
      ensures Valid() && fresh(Repr - old(Repr)) && old(Repr) <= Repr
      ensures key in children && child == children[key]
      ensures Contents == OpenChild(old(Contents), key)
    {
      if key !in children {
        child := new PathMatcherNode<D>();
        children := children[key := child];
        Repr := Repr + {child};
        Contents := Contents.(children := Contents.children[key := Empty()]);
        ChildAdded(key, child);
      }
      child := children[key];
    }

    method SetWildcard()
      requires Valid()
      modifies this
      ensures Valid() && Repr == old(Repr)
      ensures Contents == old(Contents).(wildcard := true)
    {
      wildcard := true;
      Contents := Contents.(wildcard := true);
      assert forall k :: k in children ==> OwnsChild(k);
    }

    /** A child was replaced by a larger one in its own nodes and fresh ones. */
    twostate lemma ChildGrew(key: string, new child: PathMatcherNode<D>)
      requires old(Valid()) && key in old(children) && child == old(children[key])
      requires children == old(children) && results == old(results) && wildcard == old(wildcard)
      requires Contents == old(Contents).(children := old(Contents).children[key := child.Contents])
      requires Repr == old(Repr) + child.Repr
      requires child.Valid() && fresh(child.Repr - old(child.Repr))
      requires forall o :: o in old(Repr) && o != this && o !in old(child.Repr) ==> unchanged(o)
      ensures Valid()
    {
      assert old(OwnsChild(key));
      forall k | k in children && k != key
        ensures OwnsChild(k) && children[k].Repr == old(children[k].Repr)
        ensures children[k].Repr !! child.Repr && child.Repr !! children[k].Repr
      {
        assert old(OwnsChild(k));
        assert old(children[k].Repr !! child.Repr);
        StaysOwned(k);
      }
      assert OwnsChild(key);
      forall j, k | j in children && k in children && j != k ensures children[j].Repr !! children[k].Repr {
        if j != key && k != key { assert old(children[j].Repr !! children[k].Repr); }
      }
    }

    /** InsertOrReturnExisting at the node where a path ends. */
    method Store(httpMethod: string, data: D, mark: bool) returns (inserted: bool)
      requires Valid()
      modifies this
      ensures Valid() && Repr == old(Repr)
      ensures Contents == old(Contents).(results := Stored(old(Contents).results, httpMethod, data, mark))
      ensures inserted == (httpMethod !in old(Contents).results)
    {
      inserted := httpMethod !in results;
      if inserted {
        results := results[httpMethod := Entry(data, false)];
      } else if mark {
        results := results[httpMethod := results[httpMethod].(isMultiple := true)];
      }
      Contents := Contents.(results := results);
      forall k | k in children ensures OwnsChild(k) {
        assert old(OwnsChild(k));
        StaysOwned(k);
      }
    }

    /** Inserts a template path below this node; the first registration of a path and
        method stays. Returns whether this was the first. */
    method InsertTemplate(path: Path, httpMethod: string, data: D, mark: bool) returns (inserted: bool)
      requires Valid()
      modifies Repr
      ensures Valid() && fresh(Repr - old(Repr)) && old(Repr) <= Repr
      ensures Contents == Insert(old(Contents), path, httpMethod, data, mark)
      ensures inserted == Get(old(Contents), path, httpMethod).None?
      decreases |path|, 0
    {
      if path == [] {
        inserted := Store(httpMethod, data, mark);
        return;
      }
      OpenThenInsert(Contents, path, httpMethod, data, mark);
      var child := LookupOrInsertNew(path[0]);
      inserted := InsertInChild(path[0], path[1..], httpMethod, data, mark);
    }

    /** The recursive half of InsertTemplate, once the child exists. */
    method InsertInChild(key: string, rest: Path, httpMethod: string, data: D, mark: bool) returns (inserted: bool)
      requires Valid() && key in children
      modifies Repr
      ensures Valid() && fresh(Repr - old(Repr)) && old(Repr) <= Repr
      ensures Contents == old(Contents).(children := old(Contents).children[key :=
                Insert(ChildFor(old(Contents), key), rest, httpMethod, data, mark)])
      ensures inserted == Get(ChildFor(old(Contents), key), rest, httpMethod).None?
      decreases |rest|, 2
    {
      var child := children[key];
      assert OwnsChild(key);
      inserted := child.InsertFlagged(key == DEEP, rest, httpMethod, data, mark);
      Absorb(key, child);
      ChildGrew(key, child);
    }

    /** Records a child's new nodes and contents. */
    ghost method Absorb(key: string, child: PathMatcherNode<D>)
      requires child.Valid() && this !in child.Repr
      modifies this`Repr, this`Contents
      ensures child.Valid() && unchanged(child)
      ensures Repr == old(Repr) + child.Repr
      ensures Contents == old(Contents).(children := old(Contents).children[key := child.Contents])
    {
      Repr := Repr + child.Repr;
      Contents := Contents.(children := Contents.children[key := child.Contents]);
    }

    /** What InsertTemplate does to the child: set its flag below "**", then insert the rest. */
    method InsertFlagged(deep: bool, rest: Path, httpMethod: string, data: D, mark: bool) returns (inserted: bool)
      requires Valid()
      modifies Repr
      ensures Valid() && fresh(Repr - old(Repr)) && old(Repr) <= Repr
      ensures var flagged := if deep then old(Contents).(wildcard := true) else old(Contents);
              && Contents == Insert(flagged, rest, httpMethod, data, mark)
              && inserted == Get(flagged, rest, httpMethod).None?
      decreases |rest|, 1
    {
      if deep {
        SetWildcard();
      }
      inserted := InsertTemplate(rest, httpMethod, data, mark);
    }

    method ResultForHttpMethod(httpMethod: string) returns (r: Option<Entry<D>>)
      requires Valid()
      ensures r == ResultFor(Contents, httpMethod)
    {
      if httpMethod in results {
        r := Some(results[httpMethod]);
      } else if ANY_METHOD in results {
        r := Some(results[ANY_METHOD]);
      } else {
        r := None;
      }
    }

    method LookupPathFromChild(key: string, parts: Path, httpMethod: string) returns (r: Option<Entry<D>>)
      requires Valid() && parts != []
      ensures r == LookupFromChild(Contents, key, parts, httpMethod)
      decreases |parts|, 0
    {
      r := None;
      if key in children {
        assert OwnsChild(key);
        r := children[key].LookupPath(parts[1..], httpMethod);
      }
    }

    /** The depth-first search: literal child, then (below "**") this node again, otherwise
        the "/.", "*" and "**" children. */
    method LookupPath(parts: Path, httpMethod: string) returns (r: Option<Entry<D>>)
      requires Valid()
      ensures r == Lookup(Contents, parts, httpMethod)
      decreases |parts|, 1
    {
      if parts == [] {
        r := ResultForHttpMethod(httpMethod);
        if r.None? && DEEP in children {
          assert OwnsChild(DEEP);
          r := children[DEEP].ResultForHttpMethod(httpMethod);
        }
        return;
      }
      r := LookupPathFromChild(parts[0], parts, httpMethod);
      if r.Some? { return; }
      if wildcard {
        r := LookupPath(parts[1..], httpMethod);
        return;
      }
      var keys := [SINGLE_PARAMETER, STAR, DEEP];
      for i := 0 to |keys|
        invariant r.None?
        invariant forall j :: 0 <= j < i ==> LookupFromChild(Contents, keys[j], parts, httpMethod).None?
      {
        r := LookupPathFromChild(keys[i], parts, httpMethod);
        if r.Some? {
          assert i == 0 || keys[0] == SINGLE_PARAMETER;
          assert i <= 1 || keys[1] == STAR;
          return;
        }
      }
      assert keys[0] == SINGLE_PARAMETER && keys[1] == STAR && keys[2] == DEEP;
    }
  }
}
