// The inverted index from a resource tag to the workers carrying it.
module TagIndexes {
  import opened Types
  import opened WorkerStore

  // Decides multiset equality with one counter per tag.
  method SameTags(a: seq<Tag>, b: seq<Tag>) returns (same: bool)
    ensures same <==> multiset(a) == multiset(b)
  {
    if |a| != |b| {
      assert |multiset(a)| != |multiset(b)|;
      return false;
    }
    var counts: map<Tag, int> := map[];
    for i := 0 to |a|
      invariant forall t :: CountOf(counts, t) == Copies(a, i, t)
    {
      CopiesStep(a, i);
      ghost var before := counts;
      CountStep(counts, a[i], 1);
      counts := counts[a[i] := CountOf(counts, a[i]) + 1];
      assert forall t :: CountOf(counts, t) == CountOf(before, t) + if t == a[i] then 1 else 0;
    }
    for i := 0 to |b|
      invariant forall t :: 0 <= CountOf(counts, t) == Copies(a, |a|, t) - Copies(b, i, t)
    {
      CopiesStep(b, i);
      ghost var before := counts;
      CountStep(counts, b[i], -1);
      counts := counts[b[i] := CountOf(counts, b[i]) - 1];
      assert forall t :: CountOf(counts, t) == CountOf(before, t) - if t == b[i] then 1 else 0;
      if counts[b[i]] < 0 {
        CopiesAtMost(b, i + 1, b[i]);
        assert a[..|a|] == a;
        return false;
      }
    }
    NoDeficit(a, b);
    return true;
  }

  lemma CountStep(counts: map<Tag, int>, tag: Tag, d: int)
    ensures forall t :: CountOf(counts[tag := CountOf(counts, tag) + d], t) == CountOf(counts, t) + if t == tag then d else 0
  {
  }

  // How often t occurs among the first n tags of s.
  ghost function Copies(s: seq<Tag>, n: nat, t: Tag): int
    requires n <= |s|
  {
    multiset(s[..n])[t]
  }

  lemma CopiesStep(s: seq<Tag>, i: nat)
    requires i < |s|
    ensures forall t :: Copies(s, i + 1, t) == Copies(s, i, t) + if t == s[i] then 1 else 0
  {
    assert s[..i + 1] == s[..i] + [s[i]];
  }

  lemma CopiesAtMost(s: seq<Tag>, n: nat, t: Tag)
    requires n <= |s|
    ensures Copies(s, n, t) <= multiset(s)[t]
  {
    assert s == s[..n] + s[n..];
  }

  function CountOf(counts: map<Tag, int>, t: Tag): int {
    if t in counts then counts[t] else 0
  }

  // Equal lengths and no tag short: then no tag is over either.
  lemma NoDeficit(a: seq<Tag>, b: seq<Tag>)
    requires |a| == |b|
    requires forall t :: Copies(b, |b|, t) <= Copies(a, |a|, t)
    ensures multiset(a) == multiset(b)
  {
    assert a[..|a|] == a && b[..|b|] == b;
    assert forall t :: Copies(b, |b|, t) == multiset(b)[t] && Copies(a, |a|, t) == multiset(a)[t];
    var extra := multiset(a) - multiset(b);
    assert multiset(b) + extra == multiset(a);
    assert |multiset(b)| + |extra| == |multiset(a)|;
    assert extra == multiset{};
  }

  lemma AddedNothing(index: Index, id: WorkerId)
    ensures Added(index, id, []) == index
  {
    forall t | t in index
      ensures Added(index, id, [])[t] == index[t]
    {
    }
  }

  lemma AddedOneMore(index: Index, id: WorkerId, tags: seq<Tag>, t: Tag)
    ensures var before := Added(index, id, tags);
            Added(index, id, tags + [t]) == before[t := IdsAt(before, t) + {id}]
  {
    var before, after := Added(index, id, tags), Added(index, id, tags + [t]);
    assert forall x :: x in tags + [t] <==> x in tags || x == t;
    assert after.Keys == before.Keys + {t};
    forall x | x in after
      ensures after[x] == before[t := IdsAt(before, t) + {id}][x]
    {
    }
  }

  lemma RemovedOneMore(index: Index, id: WorkerId, tags: seq<Tag>, t: Tag)
    ensures var before := Removed(index, id, tags);
            Removed(index, id, tags + [t]) ==
              if t !in before then before
              else if before[t] - {id} == {} then before - {t}
              else before[t := before[t] - {id}]
  {
    var before, after := Removed(index, id, tags), Removed(index, id, tags + [t]);
    assert forall x :: x in tags + [t] <==> x in tags || x == t;
    if t in before {
      assert before[t] - {id} == index[t] - {id};
      if before[t] - {id} == {} {
        assert after == before - {t};
      } else {
        assert after == before[t := before[t] - {id}];
      }
    } else {
      assert after == before;
    }
  }

  ghost predicate NoDuplicates(ids: seq<WorkerId>) {
    forall i, j :: 0 <= i < j < |ids| ==> ids[i] != ids[j]
  }

  lemma OneMoreId(ids: seq<WorkerId>, id: WorkerId)
    requires NoDuplicates(ids) && id !in ids
    ensures NoDuplicates(ids + [id])
    ensures forall u :: u in ids + [id] <==> u in ids || u == id
  {
  }

  class TagIndex {
    var index: Index

    constructor ()
      ensures index == map[]
    {
      index := map[];
    }

    method Add(workerID: WorkerId, tags: seq<Tag>)
      modifies this
      ensures index == Added(old(index), workerID, tags)
    {
      AddedNothing(index, workerID);
      for i := 0 to |tags|
        invariant index == Added(old(index), workerID, tags[..i])
      {
        assert tags[..i + 1] == tags[..i] + [tags[i]];
        AddedOneMore(old(index), workerID, tags[..i], tags[i]);
        var ids := if tags[i] in index then index[tags[i]] else {};
        index := index[tags[i] := ids + {workerID}];
      }
      assert tags[..|tags|] == tags;
    }

    method Remove(workerID: WorkerId, tags: seq<Tag>)
      modifies this
      ensures index == Removed(old(index), workerID, tags)
    {
      for i := 0 to |tags|
        invariant index == Removed(old(index), workerID, tags[..i])
      {
        assert tags[..i + 1] == tags[..i] + [tags[i]];
        RemovedOneMore(old(index), workerID, tags[..i], tags[i]);
        if tags[i] in index {
          var rest := index[tags[i]] - {workerID};
          if rest == {} {
            index := index - {tags[i]};
          } else {
            index := index[tags[i] := rest];
          }
        }
      }
      assert tags[..|tags|] == tags;
    }

    method Update(workerID: WorkerId, oldTags: seq<Tag>, newTags: seq<Tag>)
      modifies this
      ensures index == Updated(old(index), workerID, oldTags, newTags)
    {
      var same := SameTags(oldTags, newTags);
      if same {
        return;
      }
      Remove(workerID, oldTags);
      Add(workerID, newTags);
    }

    method HasAll(workerID: WorkerId, required: seq<Tag>) returns (all: bool)
      ensures all <==> forall t :: t in required ==> Indexed(index, t, workerID)
    {
      for i := 0 to |required|
        invariant forall t :: t in required[..i] ==> Indexed(index, t, workerID)
      {
        if required[i] !in index || workerID !in index[required[i]] {
          assert required[i] in required && !Indexed(index, required[i], workerID);
          return false;
        }
      }
      assert required[..|required|] == required;
      return true;
    }

    // The required tag with the fewest workers, a tag without entry counting zero.
    method Smallest(required: seq<Tag>) returns (smallest: Tag)
      requires required != []
      ensures smallest in required
      ensures forall t :: t in required ==> |IdsAt(index, smallest)| <= |IdsAt(index, t)|
    {
      smallest := required[0];
      for i := 1 to |required|
        invariant smallest in required
        invariant forall j :: 0 <= j < i ==> |IdsAt(index, smallest)| <= |IdsAt(index, required[j])|
      {
        var here := if required[i] in index then |index[required[i]]| else 0;
        var best := if smallest in index then |index[smallest]| else 0;
        if here < best {
          smallest := required[i];
        }
      }
    }

    // The workers present under every required tag, once each; nothing when no
    // tag is required.
    method Candidates(required: seq<Tag>) returns (result: seq<WorkerId>)
      ensures required == [] ==> result == []
      ensures required != [] ==>
                forall id :: id in result <==> forall t :: t in required ==> Indexed(index, t, id)
      ensures NoDuplicates(result)
    {
      result := [];
      if required == [] {
        return;
      }
      var smallest := Smallest(required);
      if smallest !in index {
        assert forall id :: !Indexed(index, smallest, id);
        return;
      }
      var rest := index[smallest];
      while rest != {}
        invariant rest <= index[smallest]
        invariant forall id :: id in result ==> id in index[smallest] - rest
        invariant forall id :: id in index[smallest] - rest ==>
                    (id in result <==> forall t :: t in required ==> Indexed(index, t, id))
        invariant NoDuplicates(result)
        decreases rest
      {
        var id :| id in rest;
        var all := HasAll(id, required);
        if all {
          OneMoreId(result, id);
          result := result + [id];
        }
        rest := rest - {id};
      }
      forall id | forall t :: t in required ==> Indexed(index, t, id)
        ensures id in result
      {
        assert Indexed(index, smallest, id);
      }
    }
  }
}
