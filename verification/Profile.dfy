/**
  The example UDF that merges profiles (rust/examples/merge-profile-proto/src/lib.rs),
  from the decoded list on: sort by timestamp, stably, then let later profiles
  overwrite earlier ones.
 */
module Profile {
  import opened Text

  datatype Profile = Profile(userId: Str, updatedAt: int, attrs: map<Str, Str>, badges: seq<Str>)

  /** A decoded profile with its place in the read list. */
  datatype Ranked = Ranked(profile: Profile, place: nat)

  function Rank(ps: seq<Profile>): (r: seq<Ranked>)
    ensures |r| == |ps| && forall i | 0 <= i < |ps| :: r[i] == Ranked(ps[i], i)
  {
    seq(|ps|, i requires 0 <= i < |ps| => Ranked(ps[i], i))
  }

  /** By timestamp, then by place in the read list. */
  predicate Older(x: Ranked, y: Ranked) {
    || x.profile.updatedAt < y.profile.updatedAt
    || (x.profile.updatedAt == y.profile.updatedAt && x.place < y.place)
  }

  /** Whether a profile has a say: on the scalars all have, on an attribute those that carry it. */
  predicate Speaks(x: Ranked, all: bool, key: Str) {
    all || key in x.profile.attrs
  }

  /** The newest profile with a say. */
  ghost predicate Newest(s: set<Ranked>, all: bool, key: Str, x: Ranked) {
    x in s && Speaks(x, all, key) && forall y | y in s && Speaks(y, all, key) && y != x :: Older(y, x)
  }

  /** Scalars and attributes as a merge of `s` must have them. */
  ghost predicate FieldsMerged(s: set<Ranked>, out: Profile) {
    && (forall x | Newest(s, true, [], x) :: out.userId == x.profile.userId && out.updatedAt == x.profile.updatedAt)
    && (forall k: Str :: k in out.attrs <==> exists x | x in s :: k in x.profile.attrs)
    && (forall k: Str, x: Ranked | Newest(s, false, k, x) :: k in out.attrs && out.attrs[k] == x.profile.attrs[k])
  }

  ghost predicate BadgesOf(s: set<Ranked>, badges: set<Str>) {
    forall b: Str :: b in badges <==> exists x | x in s :: b in x.profile.badges
  }

  ghost function Members<T>(s: seq<T>): set<T> {
    set x | x in s
  }

  /**
    What merging a list must yield: scalars from the newest profile, each
    attribute from the newest profile that has it, badges the sorted union
    without repeats.
   */
  ghost predicate IsMerge(ps: seq<Profile>, out: Profile) {
    && FieldsMerged(Members(Rank(ps)), out)
    && Ordered(Itself, out.badges)
    && BadgesOf(Members(Rank(ps)), Members(out.badges))
  }

  // ---------------------------------------------------------------- the stable sort

  ghost predicate Ascending(s: seq<Ranked>) {
    forall a, b | 0 <= a < b < |s| :: Older(s[a], s[b])
  }

  /** Behind everything that is not newer: where a stable sort puts the next element. */
  function Place(s: seq<Ranked>, x: Ranked): (r: seq<Ranked>)
    ensures multiset(r) == multiset(s) + multiset{x}
  {
    if s == [] || s[|s| - 1].profile.updatedAt <= x.profile.updatedAt then s + [x]
    else
      assert s == s[..|s| - 1] + [s[|s| - 1]];
      Place(s[..|s| - 1], x) + [s[|s| - 1]]
  }

  lemma {:induction false} PlaceAscending(s: seq<Ranked>, x: Ranked)
    requires Ascending(s) && forall a | 0 <= a < |s| :: s[a].place < x.place
    ensures Ascending(Place(s, x))
  {
    if s != [] {
      var last, init := s[|s| - 1], s[..|s| - 1];
      if last.profile.updatedAt > x.profile.updatedAt {
        PlaceAscending(init, x);
        var t := Place(init, x);
        forall a | 0 <= a < |t| ensures Older(t[a], last) {
          assert t[a] in multiset(t);
          if t[a] != x {
            assert t[a] in multiset(init);
            var c :| 0 <= c < |init| && init[c] == t[a];
            assert s[c] == t[a];
          }
        }
      } else {
        forall a | 0 <= a < |s| ensures Older(s[a], x) {
          assert a < |s| - 1 ==> Older(s[a], last);
        }
      }
    }
  }

  /** sort_by_key on `updated_at`: stable, so ties keep their order in the list. */
  method SortByTime(rs: seq<Ranked>) returns (r: seq<Ranked>)
    requires forall a, b | 0 <= a < b < |rs| :: rs[a].place < rs[b].place
    ensures multiset(r) == multiset(rs) && Ascending(r)
    ensures forall a, b | 0 <= a < b < |r| ::
      || r[a].profile.updatedAt < r[b].profile.updatedAt
      || (r[a].profile.updatedAt == r[b].profile.updatedAt && r[a].place < r[b].place)
  {
    r := [];
    for i := 0 to |rs|
      invariant multiset(r) == multiset(rs[..i]) && Ascending(r)
    {
      forall a | 0 <= a < |r| ensures r[a].place < rs[i].place {
        assert r[a] in multiset(rs[..i]);
        var c :| 0 <= c < i && rs[..i][c] == r[a];
      }
      PlaceAscending(r, rs[i]);
      r := Place(r, rs[i]);
      assert rs[..i + 1] == rs[..i] + [rs[i]];
    }
    assert rs[..|rs|] == rs;
  }

  // ---------------------------------------------------------------- the merge

  /** One profile newer than all before it overwrites the scalars and its own attributes. */
  lemma MergeStep(s: set<Ranked>, x: Ranked, before: Profile, badges: set<Str>)
    requires FieldsMerged(s, before) && BadgesOf(s, badges)
    requires forall y | y in s :: Older(y, x)
    ensures FieldsMerged(s + {x}, Profile(x.profile.userId, x.profile.updatedAt, before.attrs + x.profile.attrs, []))
    ensures BadgesOf(s + {x}, badges + Members(x.profile.badges))
  {
    var out := Profile(x.profile.userId, x.profile.updatedAt, before.attrs + x.profile.attrs, []);
    assert Newest(s + {x}, true, [], x);
    assert forall y | Newest(s + {x}, true, [], y) :: y == x;
    forall k: Str ensures k in out.attrs <==> exists y | y in s + {x} :: k in y.profile.attrs {
      if k in before.attrs {
        var y :| y in s && k in y.profile.attrs;
        assert y in s + {x};
      } else if k in x.profile.attrs {
        assert x in s + {x};
      }
    }
    forall k: Str, y: Ranked | Newest(s + {x}, false, k, y)
      ensures k in out.attrs && out.attrs[k] == y.profile.attrs[k]
    {
      if k in x.profile.attrs {
        assert y == x;
      } else {
        assert Newest(s, false, k, y);
      }
    }
    forall b: Str
      ensures b in badges + Members(x.profile.badges) <==> exists y | y in s + {x} :: b in y.profile.badges
    {
      if b in badges {
        var y :| y in s && b in y.profile.badges;
        assert y in s + {x};
      } else if b in x.profile.badges {
        assert x in s + {x};
      }
    }
  }

  /** The overwriting loop over the sorted profiles. */
  method Overwrite(r: seq<Ranked>) returns (out: Profile, badges: set<Str>)
    requires Ascending(r)
    ensures FieldsMerged(Members(r), out) && BadgesOf(Members(r), badges)
  {
    out := Profile([], 0, map[], []);
    badges := {};
    for n := 0 to |r|
      invariant FieldsMerged(Members(r[..n]), out) && BadgesOf(Members(r[..n]), badges)
    {
      var p := r[n].profile;
      forall y | y in Members(r[..n]) ensures Older(y, r[n]) {
        var a :| 0 <= a < n && r[..n][a] == y;
      }
      MergeStep(Members(r[..n]), r[n], out, badges);
      assert Members(r[..n + 1]) == Members(r[..n]) + {r[n]};
      out := Profile(p.userId, p.updatedAt, out.attrs + p.attrs, []);
      badges := badges + set b | b in p.badges;
    }
    assert r[..|r|] == r;
  }

  lemma SameMembers<T>(a: seq<T>, b: seq<T>)
    requires multiset(a) == multiset(b)
    ensures Members(a) == Members(b)
  {
    forall x ensures x in Members(a) <==> x in Members(b) {
      assert x in a <==> x in multiset(a);
      assert x in b <==> x in multiset(b);
    }
  }

  /** merge_profile on the decoded profiles; `None` is the merge's Miss. */
  method MergeProfiles(decoded: seq<Profile>) returns (r: Option<Profile>)
    ensures r.None? <==> decoded == []
    ensures r.Some? ==> IsMerge(decoded, r.value)
  {
    if decoded == [] {
      return None;
    }
    var sorted := SortByTime(Rank(decoded));
    SameMembers(sorted, Rank(decoded));
    var out, badges := Overwrite(sorted);
    var list := SortedMembers(badges);
    assert Members(list) == badges;
    r := Some(out.(badges := list));
  }

  // ---------------------------------------------------------------- what that promises

  lemma OlderTotal(x: Ranked, y: Ranked)
    requires x.place != y.place
    ensures Older(x, y) || Older(y, x)
  {
  }

  /** Among finitely many profiles with a say there is a newest one. */
  lemma {:induction false} NewestExists(s: set<Ranked>, all: bool, key: Str) returns (x: Ranked)
    requires exists y | y in s :: Speaks(y, all, key)
    requires forall y, z | y in s && z in s && y != z :: y.place != z.place
    ensures Newest(s, all, key, x)
    decreases s
  {
    var y :| y in s && Speaks(y, all, key);
    var rest := s - {y};
    if exists z | z in rest :: Speaks(z, all, key) {
      x := NewestExists(rest, all, key);
      OlderTotal(x, y);
      if Older(x, y) {
        x := y;
      }
    } else {
      x := y;
    }
  }

  lemma RankDistinct(ps: seq<Profile>)
    ensures forall y, z | y in Members(Rank(ps)) && z in Members(Rank(ps)) && y != z :: y.place != z.place
  {
  }

  /** The requirements determine the merge: any two profiles meeting them are equal. */
  lemma MergeUnique(ps: seq<Profile>, a: Profile, b: Profile)
    requires ps != [] && IsMerge(ps, a) && IsMerge(ps, b)
    ensures a == b
  {
    var s := Members(Rank(ps));
    RankDistinct(ps);
    assert Rank(ps)[0] in s && Speaks(Rank(ps)[0], true, []);
    var x := NewestExists(s, true, []);
    forall k: Str | k in a.attrs ensures k in b.attrs && a.attrs[k] == b.attrs[k] {
      var y :| y in s && k in y.profile.attrs;
      assert Speaks(y, false, k);
      var z := NewestExists(s, false, k);
    }
    assert a.attrs == b.attrs by {
      forall k: Str ensures k in a.attrs <==> k in b.attrs {
      }
    }
    SameOrdered(a.badges, b.badges);
  }

  lemma SameOrdered(a: seq<Str>, b: seq<Str>)
    requires Ordered(Itself, a) && Ordered(Itself, b) && forall x :: x in Members(a) <==> x in Members(b)
    ensures a == b
  {
    OrderedMultiset(a);
    OrderedMultiset(b);
    assert Members(a) == Members(b);
    OrderedUnique(Itself, a, b);
  }

  lemma OrderedMultiset(a: seq<Str>)
    requires Ordered(Itself, a)
    ensures multiset(a) == multiset(Members(a))
  {
    OrderedDistinct(Itself, a);
    forall x ensures multiset(a)[x] == multiset(Members(a))[x] {
      if x in a {
        var k :| 0 <= k < |a| && a[k] == x;
        OnceInMultiset(Itself, a, k);
      } else {
        assert x !in multiset(a);
      }
    }
  }

  ghost predicate DistinctTimes(ps: seq<Profile>) {
    forall i, j | 0 <= i < j < |ps| :: ps[i].updatedAt != ps[j].updatedAt
  }

  /** With distinct timestamps the newest profile is the same one wherever the pools stand in the list. */
  lemma NewestMoves(ps: seq<Profile>, qs: seq<Profile>, all: bool, key: Str, x: Ranked) returns (y: Ranked)
    requires multiset(ps) == multiset(qs) && DistinctTimes(ps)
    requires Newest(Members(Rank(qs)), all, key, x)
    ensures Newest(Members(Rank(ps)), all, key, y) && y.profile == x.profile
  {
    assert x.profile in multiset(qs) by { assert qs[x.place] == x.profile; }
    assert x.profile in multiset(ps);
    var i :| 0 <= i < |ps| && ps[i] == x.profile;
    y := Ranked(ps[i], i);
    assert Rank(ps)[i] == y;
    forall z | z in Members(Rank(ps)) && Speaks(z, all, key) && z != y ensures Older(z, y) {
      assert ps[z.place] == z.profile;
      assert z.profile in multiset(ps) && z.profile in multiset(qs);
      var j :| 0 <= j < |qs| && qs[j] == z.profile;
      var w := Ranked(qs[j], j);
      assert Rank(qs)[j] == w;
      assert ps[z.place].updatedAt != ps[i].updatedAt;
      assert w in Members(Rank(qs)) && Speaks(w, all, key);
    }
  }

  /** With distinct timestamps the result does not depend on the order of the pools. */
  lemma MergeOrderIndependent(ps: seq<Profile>, qs: seq<Profile>, out: Profile)
    requires multiset(ps) == multiset(qs) && DistinctTimes(ps) && IsMerge(ps, out)
    ensures IsMerge(qs, out)
  {
    var s, t := Members(Rank(ps)), Members(Rank(qs));
    forall x | Newest(t, true, [], x) ensures out.userId == x.profile.userId && out.updatedAt == x.profile.updatedAt {
      var y := NewestMoves(ps, qs, true, [], x);
    }
    forall k: Str, x: Ranked | Newest(t, false, k, x) ensures k in out.attrs && out.attrs[k] == x.profile.attrs[k] {
      var y := NewestMoves(ps, qs, false, k, x);
    }
    Counterparts(ps, qs);
    Counterparts(qs, ps);
    forall k: Str ensures k in out.attrs <==> exists x | x in t :: k in x.profile.attrs {
    }
    forall b: Str ensures b in Members(out.badges) <==> exists x | x in t :: b in x.profile.badges {
    }
  }

  lemma Counterparts(ps: seq<Profile>, qs: seq<Profile>)
    requires multiset(ps) == multiset(qs)
    ensures forall x | x in Members(Rank(ps)) :: exists y | y in Members(Rank(qs)) :: y.profile == x.profile
  {
    forall x | x in Members(Rank(ps)) ensures exists y | y in Members(Rank(qs)) :: y.profile == x.profile {
      assert ps[x.place] == x.profile;
      assert x.profile in multiset(ps) && x.profile in multiset(qs);
      var j :| 0 <= j < |qs| && qs[j] == x.profile;
      assert Rank(qs)[j] in Members(Rank(qs));
    }
  }

  /** Merging a merged profile alone returns it. */
  lemma MergeIdempotent(ps: seq<Profile>, out: Profile, again: Profile)
    requires IsMerge(ps, out) && IsMerge([out], again)
    ensures again == out
  {
    var x := Ranked(out, 0);
    assert Rank([out])[0] == x;
    assert Members(Rank([out])) == {x};
    assert IsMerge([out], out) by {
      forall b: Str ensures b in Members(out.badges) <==> exists y | y in {x} :: b in y.profile.badges {
        assert x in {x};
      }
      forall k: Str ensures k in out.attrs <==> exists y | y in {x} :: k in y.profile.attrs {
        assert x in {x};
      }
    }
    MergeUnique([out], again, out);
  }
}
