/** Page order: the pages of a space visited by four nested index loops. */
module PageOrder {
  import opened CowSpec
  import opened PageTables

  /** The virtual page number whose nine-bit groups are the indices. */
  function Num(v: Vpn): nat {
    ((v.i4 * 512 + v.i3) * 512 + v.i2) * 512 + v.i1
  }

  lemma Digits(a: nat, b: nat, c: nat, d: nat)
    requires b < 512 && d < 512
    ensures a * 512 + b < c * 512 + d <==> a < c || (a == c && b < d)
    ensures a * 512 + b == c * 512 + d <==> a == c && b == d
  {
  }

  /** The page number orders pages by their indices, highest first. */
  lemma NumOrder(v: Vpn, w: Vpn)
    requires v.i3 < 512 && v.i2 < 512 && v.i1 < 512 && w.i3 < 512 && w.i2 < 512 && w.i1 < 512
    ensures Num(v) == Num(w) <==> v == w
    ensures Num(v) < Num(w) <==>
            || v.i4 < w.i4
            || (v.i4 == w.i4 && (v.i3 < w.i3 || (v.i3 == w.i3 && (v.i2 < w.i2 || (v.i2 == w.i2 && v.i1 < w.i1)))))
  {
    Digits(v.i4, v.i3, w.i4, w.i3);
    Digits(v.i4 * 512 + v.i3, v.i2, w.i4 * 512 + w.i3, w.i2);
    Digits((v.i4 * 512 + v.i3) * 512 + v.i2, v.i1, (w.i4 * 512 + w.i3) * 512 + w.i2, w.i1);
  }

  ghost predicate Proper(space: Space) {
    forall v :: v in space ==> ValidPage(v)
  }

  ghost function Before(space: Space, n: nat): set<Vpn> {
    set v | v in space && Num(v) < n
  }

  lemma BeforeNext(space: Space, v: Vpn)
    requires Proper(space) && ValidPage(v)
    ensures v !in Before(space, Num(v))
    ensures Before(space, Num(v) + 1) == if v in space then Before(space, Num(v)) + {v} else Before(space, Num(v))
  {
    forall w | w in space && Num(w) == Num(v)
      ensures w == v
    {
      NumOrder(v, w);
    }
  }

  lemma BeforeEnds(space: Space)
    requires Proper(space)
    ensures Before(space, Num(Vpn(0, 0, 0, 0))) == {}
    ensures Before(space, Num(Vpn(USER_ENTRIES, 0, 0, 0))) == space.Keys
  {
    forall v | v in space
      ensures Num(v) < Num(Vpn(USER_ENTRIES, 0, 0, 0))
    {
      NumOrder(v, Vpn(USER_ENTRIES, 0, 0, 0));
    }
  }

  /** The page after the last page of a full index range starts the next one. */
  lemma Carry(i4: nat, i3: nat, i2: nat)
    ensures Num(Vpn(i4, i3, i2, 512)) == Num(Vpn(i4, i3, i2 + 1, 0))
    ensures Num(Vpn(i4, i3, 512, 0)) == Num(Vpn(i4, i3 + 1, 0, 0))
    ensures Num(Vpn(i4, 512, 0, 0)) == Num(Vpn(i4 + 1, 0, 0, 0))
  {
  }

  /** A table that is absent leaves a gap: no page of the space is numbered in its range. */
  lemma GapL1(space: Space, i4: nat, i3: nat, i2: nat)
    requires Proper(space) && ValidPage(Vpn(i4, i3, i2, 0))
    requires forall v :: v in space ==> !(v.i4 == i4 && v.i3 == i3 && v.i2 == i2)
    ensures Before(space, Num(Vpn(i4, i3, i2 + 1, 0))) == Before(space, Num(Vpn(i4, i3, i2, 0)))
  {
    forall v | v in space
      ensures Num(v) < Num(Vpn(i4, i3, i2 + 1, 0)) <==> Num(v) < Num(Vpn(i4, i3, i2, 0))
    {
      NumOrder(v, Vpn(i4, i3, i2, 0));
      NumOrder(v, Vpn(i4, i3, i2, 511));
      assert Num(Vpn(i4, i3, i2 + 1, 0)) == Num(Vpn(i4, i3, i2, 511)) + 1;
    }
  }

  lemma GapL2(space: Space, i4: nat, i3: nat)
    requires Proper(space) && ValidPage(Vpn(i4, i3, 0, 0))
    requires forall v :: v in space ==> !(v.i4 == i4 && v.i3 == i3)
    ensures Before(space, Num(Vpn(i4, i3 + 1, 0, 0))) == Before(space, Num(Vpn(i4, i3, 0, 0)))
  {
    forall v | v in space
      ensures Num(v) < Num(Vpn(i4, i3 + 1, 0, 0)) <==> Num(v) < Num(Vpn(i4, i3, 0, 0))
    {
      NumOrder(v, Vpn(i4, i3, 0, 0));
      NumOrder(v, Vpn(i4, i3, 511, 511));
      assert Num(Vpn(i4, i3 + 1, 0, 0)) == Num(Vpn(i4, i3, 511, 511)) + 1;
    }
  }

  lemma GapL3(space: Space, i4: nat)
    requires Proper(space) && ValidPage(Vpn(i4, 0, 0, 0))
    requires forall v :: v in space ==> v.i4 != i4
    ensures Before(space, Num(Vpn(i4 + 1, 0, 0, 0))) == Before(space, Num(Vpn(i4, 0, 0, 0)))
  {
    forall v | v in space
      ensures Num(v) < Num(Vpn(i4 + 1, 0, 0, 0)) <==> Num(v) < Num(Vpn(i4, 0, 0, 0))
    {
      NumOrder(v, Vpn(i4, 0, 0, 0));
      NumOrder(v, Vpn(i4, 511, 511, 511));
      assert Num(Vpn(i4 + 1, 0, 0, 0)) == Num(Vpn(i4, 511, 511, 511)) + 1;
    }
  }

  // ---------- One page more ----------

  /** What it takes for a fork of `parent` to go through. */
  ghost predicate CanFork(s: Sys, parent: nat) {
    && Inv(s) && parent in s.spaces && Proper(s.spaces[parent])
    && forall v :: v in s.spaces[parent] ==>
                     s.spaces[parent][v].frame in s.counts && s.counts[s.spaces[parent][v].frame] < MAX_SHARERS
  }

  ghost predicate FreshTables(s: Sys, tables: set<nat>) {
    forall t :: t in tables ==> Free(s, t)
  }

  lemma ForkEnabled(s: Sys, parent: nat, child: nat, shared: set<Vpn>, tables: set<nat>)
    requires CanFork(s, parent) && FreshTables(s, tables) && child in tables && shared <= s.spaces[parent].Keys
    ensures Enabled(s, Fork(parent, child, shared, tables))
  {
    assert Free(s, child);
  }

  /** Sharing one page more: two entries written, one reference added. */
  lemma ForkSharePage(s: Sys, parent: nat, child: nat, shared: set<Vpn>, tables: set<nat>, v: Vpn)
    requires CanFork(s, parent) && FreshTables(s, tables) && child in tables
    requires shared <= s.spaces[parent].Keys && v in s.spaces[parent] && v !in shared
    ensures var a := ForkState(s, parent, child, shared, tables);
            var b := ForkState(s, parent, child, shared + {v}, tables);
            var e := s.spaces[parent][v];
            && parent in a.spaces && child in a.spaces && a.spaces[parent][v] == e
            && e.frame in a.counts && 0 < a.counts[e.frame] < MAX_SHARERS
            && b.spaces
               == a.spaces[parent := a.spaces[parent][v := Shared(e)]][child := a.spaces[child][v := Shared(e)]]
            && b.counts == a.counts[e.frame := a.counts[e.frame] + 1]
            && b.mem == a.mem && b.held == a.held
  {
    var e := s.spaces[parent][v];
    assert Free(s, child);
    FreeIsUnused(s, child);
    ForkSpacesNext(s.spaces, parent, child, shared, v);
    ForkCountsNext(s, parent, child, shared, tables, v);
  }

  lemma ForkSpacesNext(spaces: map<nat, Space>, parent: nat, child: nat, shared: set<Vpn>, v: Vpn)
    requires parent in spaces && child != parent && v in spaces[parent] && v !in shared
    ensures var a := ForkSpaces(spaces, parent, child, shared);
            var e := spaces[parent][v];
            && a[parent][v] == e
            && ForkSpaces(spaces, parent, child, shared + {v}) ==
               a[parent := a[parent][v := Shared(e)]][child := a[child][v := Shared(e)]]
  {
    var space := spaces[parent];
    var e := space[v];
    assert Marked(space, shared + {v}) == Marked(space, shared)[v := Shared(e)];
    assert Child(space, shared + {v}) == Child(space, shared)[v := Shared(e)];
  }

  lemma OneFrameMore(space: Space, shared: set<Vpn>, v: Vpn)
    requires Injective(space) && v in space && v !in shared
    ensures FramesOf(space, shared + {v}) == FramesOf(space, shared) + {space[v].frame}
    ensures space[v].frame !in FramesOf(space, shared)
  {
  }

  lemma ForkCountsNext(s: Sys, parent: nat, child: nat, shared: set<Vpn>, tables: set<nat>, v: Vpn)
    requires CanFork(s, parent) && FreshTables(s, tables)
    requires shared <= s.spaces[parent].Keys && v in s.spaces[parent] && v !in shared
    ensures var a := ForkState(s, parent, child, shared, tables);
            var f := s.spaces[parent][v].frame;
            && f in a.counts && 0 < a.counts[f] < MAX_SHARERS
            && ForkState(s, parent, child, shared + {v}, tables).counts == a.counts[f := a.counts[f] + 1]
  {
    hide ForkSpaces, CountsOk, FramesOf;
    var space := s.spaces[parent];
    var f := space[v].frame;
    MappedIsCounted(s, parent, v);
    assert Injective(space);
    OneFrameMore(space, shared, v);
    assert f !in tables;
  }

  /** Taking one table frame more. */
  lemma ForkTakeTable(s: Sys, parent: nat, child: nat, shared: set<Vpn>, tables: set<nat>, t: nat)
    requires parent in s.spaces && FreshTables(s, tables)
    requires Free(ForkState(s, parent, child, shared, tables), t)
    ensures FreshTables(s, tables + {t})
    ensures var a := ForkState(s, parent, child, shared, tables);
            var b := ForkState(s, parent, child, shared, tables + {t});
            && b.spaces == a.spaces && b.mem == a.mem
            && b.counts == a.counts[t := 1] && b.held == a.held[t := 1]
  {
    hide ForkSpaces, FramesOf, CountsForked, Taken;
    ForkCountsTable(s.counts, FramesOf(s.spaces[parent], shared), tables, t);
    HoldOne(s.held, tables, t);
  }

  lemma ForkCountsTable(counts: map<nat, nat>, frames: set<nat>, tables: set<nat>, t: nat)
    requires t in CountsForked(counts, frames, tables) && CountsForked(counts, frames, tables)[t] == 0
    ensures t in counts && counts[t] == 0
    ensures CountsForked(counts, frames, tables + {t}) == CountsForked(counts, frames, tables)[t := 1]
  {
  }

  lemma HoldOne(held: map<nat, nat>, tables: set<nat>, t: nat)
    ensures held + Taken(tables + {t}) == (held + Taken(tables))[t := 1]
  {
  }

  // ---------- One page less ----------

  /** Frames held as tables that a teardown may give back. */
  ghost predicate TableFrames(s: Sys, tables: set<nat>) {
    forall t :: t in tables ==> t in s.held && s.held[t] == 1
  }

  /** Unmapping one page more: one reference and one entry less. */
  lemma ExitDropPage(s: Sys, root: nat, dropped: set<Vpn>, tables: set<nat>, v: Vpn)
    requires Inv(s) && root in s.spaces && TableFrames(s, tables)
    requires v in s.spaces[root] && v !in dropped
    ensures var a := ExitState(s, root, dropped, tables);
            var b := ExitState(s, root, dropped + {v}, tables);
            var f := s.spaces[root][v].frame;
            && root in a.spaces && v in a.spaces[root] && a.spaces[root][v] == s.spaces[root][v]
            && f in a.counts && a.counts[f] > 0
            && b.spaces == a.spaces[root := a.spaces[root] - {v}]
            && b.counts == a.counts[f := Less(a.counts[f])]
            && b.mem == a.mem && b.held == a.held
  {
    hide Inv, FramesOf, CountsExited;
    var space := s.spaces[root];
    assert space - (dropped + {v}) == (space - dropped) - {v};
    ExitCountsNext(s, root, dropped, tables, v);
  }

  lemma ExitCountsNext(s: Sys, root: nat, dropped: set<Vpn>, tables: set<nat>, v: Vpn)
    requires Inv(s) && root in s.spaces && TableFrames(s, tables)
    requires v in s.spaces[root] && v !in dropped
    ensures var a := ExitState(s, root, dropped, tables);
            var f := s.spaces[root][v].frame;
            && f in a.counts && a.counts[f] > 0
            && ExitState(s, root, dropped + {v}, tables).counts == a.counts[f := Less(a.counts[f])]
  {
    var space := s.spaces[root];
    var f := space[v].frame;
    MappedIsCounted(s, root, v);
    assert EntryOk(s, space[v]);
    assert Injective(space);
    assert FramesOf(space, dropped + {v}) == FramesOf(space, dropped) + {f};
    assert f !in FramesOf(space, dropped);
    assert f !in tables;
  }

  /** Giving one table back. */
  lemma ExitGiveTable(s: Sys, root: nat, dropped: set<Vpn>, tables: set<nat>, t: nat)
    requires Inv(s) && root in s.spaces && TableFrames(s, tables)
    requires t in s.held && s.held[t] == 1 && t !in tables
    ensures TableFrames(s, tables + {t})
    ensures var a := ExitState(s, root, dropped, tables);
            var b := ExitState(s, root, dropped, tables + {t});
            && t in a.counts && a.counts[t] == 1
            && b.spaces == a.spaces && b.mem == a.mem
            && b.counts == a.counts[t := 0] && b.held == a.held - {t}
  {
    HeldIsUnmapped(s, t);
    assert s.counts[t] == Due(s, t);
    assert t !in FramesOf(s.spaces[root], dropped);
  }

  /** Nothing dropped and nothing given back is the state itself. */
  lemma ExitStarts(s: Sys, root: nat)
    requires Inv(s) && root in s.spaces && Proper(s.spaces[root])
    ensures ExitState(s, root, Before(s.spaces[root], Num(Vpn(0, 0, 0, 0))), {}) == s
  {
    BeforeEnds(s.spaces[root]);
    var space := s.spaces[root];
    assert space - {} == space;
    assert s.spaces[root := space] == s.spaces;
    assert FramesOf(space, {}) == {};
    assert s.held - {} == s.held;
    assert ExitState(s, root, {}, {}).counts == s.counts;
  }
}
