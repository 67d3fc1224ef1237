/** The occupancy map `fulfilledSlots` and the keyed writes that fold wishes
    into it: the live-feed insert, the optimistic submit and the bootstrap
    loop all store a wish under the key of its own row and column. */
module Occupancy {
  import opened Records
  import opened Keys

  type Slots = map<string, Wish>

  /** `{ ...prev, [key]: wish }`: an unconditional overwrite of one key. */
  function Put(m: Slots, w: Wish): (m': Slots)
    ensures m'.Keys == m.Keys + {KeyOf(w)}
    ensures m'[KeyOf(w)] == w
    ensures forall k :: k in m && k != KeyOf(w) ==> m'[k] == m[k]
  {
    m[KeyOf(w) := w]
  }

  /** Folds the wishes into m from first to last, as `forEach` does. */
  function Apply(m: Slots, ws: seq<Wish>): Slots
    decreases |ws|
  {
    if ws == [] then m else Apply(Put(m, ws[0]), ws[1..])
  }

  /** Every entry sits under the key of its own row and column. */
  ghost predicate WellKeyed(m: Slots) {
    forall k :: k in m ==> KeyOf(m[k]) == k
  }

  /** No two different wishes in ws claim the same slot. */
  ghost predicate OneWishPerSlot(ws: seq<Wish>) {
    forall i, j ::
      (0 <= i < |ws| && 0 <= j < |ws| && ws[i].grid_row == ws[j].grid_row && ws[i].grid_col == ws[j].grid_col)
      ==> ws[i] == ws[j]
  }

  /** Delivering the same event twice leaves the map as delivering it once. */
  lemma PutIdempotent(m: Slots, w: Wish)
    ensures Put(Put(m, w), w) == Put(m, w)
  {
  }

  lemma DistinctSlotsDistinctKeys(w1: Wish, w2: Wish)
    requires w1.grid_row != w2.grid_row || w1.grid_col != w2.grid_col
    ensures KeyOf(w1) != KeyOf(w2)
  {
    if KeyOf(w1) == KeyOf(w2) {
      KeyOfInjective(w1, w2);
    }
  }

  /** Writes to different slots commute. */
  lemma PutCommutes(m: Slots, w1: Wish, w2: Wish)
    requires w1.grid_row != w2.grid_row || w1.grid_col != w2.grid_col
    ensures Put(Put(m, w1), w2) == Put(Put(m, w2), w1)
  {
    DistinctSlotsDistinctKeys(w1, w2);
  }

  /** A later write for the same slot replaces the earlier one and leaves a
      single entry: the optimistic copy followed by its feed echo ends as the
      echo, and a feed-delivered wish followed by a local submit for the same
      slot ends as the local copy. */
  lemma PutSupersedes(m: Slots, w: Wish, w': Wish)
    requires w.grid_row == w'.grid_row && w.grid_col == w'.grid_col
    ensures Put(Put(m, w), w') == Put(m, w')
    ensures |Put(Put(m, w), w').Keys| == |Put(m, w).Keys|
  {
    assert KeyOf(w) == KeyOf(w');
  }

  lemma PutKeepsWellKeyed(m: Slots, w: Wish)
    requires WellKeyed(m)
    ensures WellKeyed(Put(m, w))
  {
  }

  lemma {:induction false} ApplyKeepsWellKeyed(m: Slots, ws: seq<Wish>)
    requires WellKeyed(m)
    ensures WellKeyed(Apply(m, ws))
    decreases |ws|
  {
    if ws != [] {
      PutKeepsWellKeyed(m, ws[0]);
      ApplyKeepsWellKeyed(Put(m, ws[0]), ws[1..]);
    }
  }

  /** Folding then folding more is folding the concatenation: bootstrap
      followed by live events goes through the one keyed-write path. */
  lemma {:induction false} ApplyConcat(m: Slots, ws1: seq<Wish>, ws2: seq<Wish>)
    ensures Apply(Apply(m, ws1), ws2) == Apply(m, ws1 + ws2)
    decreases |ws1|
  {
    if ws1 != [] {
      assert (ws1 + ws2)[0] == ws1[0];
      assert (ws1 + ws2)[1..] == ws1[1..] + ws2;
      ApplyConcat(Put(m, ws1[0]), ws1[1..], ws2);
    } else {
      assert ws1 + ws2 == ws2;
    }
  }

  /** A key is present after a fold iff it was present before or some
      folded wish has it. */
  lemma {:induction false} ApplyHasKey(m: Slots, ws: seq<Wish>, k: string)
    ensures k in Apply(m, ws) <==> k in m || exists i :: 0 <= i < |ws| && KeyOf(ws[i]) == k
    decreases |ws|
  {
    if ws != [] {
      ApplyHasKey(Put(m, ws[0]), ws[1..], k);
      if i :| 0 <= i < |ws[1..]| && KeyOf(ws[1..][i]) == k {
        assert KeyOf(ws[i + 1]) == k;
      }
      if i :| 0 <= i < |ws| && KeyOf(ws[i]) == k && i > 0 {
        assert KeyOf(ws[1..][i - 1]) == k;
      }
    }
  }

  /** The keys after a fold are the old keys plus the key of every wish. */
  lemma ApplyKeys(m: Slots, ws: seq<Wish>)
    ensures Apply(m, ws).Keys == m.Keys + (set w | w in ws :: KeyOf(w))
  {
    forall k
      ensures k in Apply(m, ws) <==> k in m.Keys + (set w | w in ws :: KeyOf(w))
    {
      ApplyHasKey(m, ws, k);
      if w :| w in ws && KeyOf(w) == k {
        var i :| 0 <= i < |ws| && ws[i] == w;
      }
    }
  }

  /** A key no wish of ws writes keeps its old entry, or stays absent. */
  lemma {:induction false} ApplyUntouched(m: Slots, ws: seq<Wish>, k: string)
    requires forall i :: 0 <= i < |ws| ==> KeyOf(ws[i]) != k
    ensures k in Apply(m, ws) <==> k in m
    ensures k in m ==> Apply(m, ws)[k] == m[k]
    decreases |ws|
  {
    if ws != [] {
      ApplyUntouched(Put(m, ws[0]), ws[1..], k);
    }
  }

  /** For a slot written more than once, the last wish in the list wins. */
  lemma ApplyLastWins(m: Slots, ws: seq<Wish>, j: int)
    requires 0 <= j < |ws|
    requires forall i :: j < i < |ws| ==> KeyOf(ws[i]) != KeyOf(ws[j])
    ensures KeyOf(ws[j]) in Apply(m, ws) && Apply(m, ws)[KeyOf(ws[j])] == ws[j]
  {
    ApplyLastWinsAt(m, ws, j, KeyOf(ws[j]));
  }

  lemma {:induction false} ApplyLastWinsAt(m: Slots, ws: seq<Wish>, j: int, k: string)
    requires 0 <= j < |ws| && KeyOf(ws[j]) == k
    requires forall i :: j < i < |ws| ==> KeyOf(ws[i]) != k
    ensures k in Apply(m, ws) && Apply(m, ws)[k] == ws[j]
    decreases |ws|
  {
    var rest := ws[1..];
    if j == 0 {
      assert forall i :: 0 <= i < |rest| ==> rest[i] == ws[i + 1];
      ApplyUntouched(Put(m, ws[0]), rest, k);
    } else {
      assert forall i :: j - 1 <= i < |rest| ==> rest[i] == ws[i + 1];
      ApplyLastWinsAt(Put(m, ws[0]), rest, j - 1, k);
    }
  }

  /** Every entry after a fold is an old entry or one of the folded wishes. */
  lemma {:induction false} ApplyEntriesFrom(m: Slots, ws: seq<Wish>, k: string)
    requires k in Apply(m, ws)
    ensures Apply(m, ws)[k] in ws || (k in m && Apply(m, ws)[k] == m[k])
    decreases |ws|
  {
    if ws != [] {
      var rest := ws[1..];
      ApplyEntriesFrom(Put(m, ws[0]), rest, k);
      var v := Apply(m, ws)[k];
      if v in rest {
        var i :| 0 <= i < |rest| && rest[i] == v;
        assert ws[i + 1] == v;
      } else if k == KeyOf(ws[0]) {
        assert v == ws[0];
      }
    }
  }

  /** When no two wishes share a slot, each wish is found under its key. */
  lemma {:induction false} ApplyFinds(m: Slots, ws: seq<Wish>, w: Wish)
    requires OneWishPerSlot(ws) && w in ws
    ensures KeyOf(w) in Apply(m, ws) && Apply(m, ws)[KeyOf(w)] == w
    decreases |ws|
  {
    var rest := ws[1..];
    assert OneWishPerSlot(rest) by {
      forall i, j | 0 <= i < |rest| && 0 <= j < |rest| &&
        rest[i].grid_row == rest[j].grid_row && rest[i].grid_col == rest[j].grid_col
        ensures rest[i] == rest[j]
      {
        assert rest[i] == ws[i + 1] && rest[j] == ws[j + 1];
      }
    }
    if w in rest {
      ApplyFinds(Put(m, ws[0]), rest, w);
    } else {
      assert w == ws[0];
      forall i | 0 <= i < |rest|
        ensures KeyOf(rest[i]) != KeyOf(w)
      {
        if KeyOf(rest[i]) == KeyOf(w) {
          KeyOfInjective(rest[i], w);
        }
      }
      ApplyUntouched(Put(m, w), rest, KeyOf(w));
    }
  }

  lemma PermutationSameElements(ws1: seq<Wish>, ws2: seq<Wish>, w: Wish)
    requires multiset(ws1) == multiset(ws2)
    ensures w in ws1 <==> w in ws2
  {
    assert w in ws1 <==> w in multiset(ws1);
    assert w in ws2 <==> w in multiset(ws2);
  }

  lemma PermutationOneWishPerSlot(ws1: seq<Wish>, ws2: seq<Wish>)
    requires multiset(ws1) == multiset(ws2)
    requires OneWishPerSlot(ws1)
    ensures OneWishPerSlot(ws2)
  {
    forall i, j | 0 <= i < |ws2| && 0 <= j < |ws2| &&
      ws2[i].grid_row == ws2[j].grid_row && ws2[i].grid_col == ws2[j].grid_col
      ensures ws2[i] == ws2[j]
    {
      PermutationSameElements(ws1, ws2, ws2[i]);
      PermutationSameElements(ws1, ws2, ws2[j]);
      var a :| 0 <= a < |ws1| && ws1[a] == ws2[i];
      var b :| 0 <= b < |ws1| && ws1[b] == ws2[j];
    }
  }

  /** Two lists with the same wishes, one per slot, agree on every key. */
  lemma ApplyAgreesAt(m: Slots, ws1: seq<Wish>, ws2: seq<Wish>, k: string)
    requires multiset(ws1) == multiset(ws2)
    requires OneWishPerSlot(ws1) && OneWishPerSlot(ws2)
    ensures k in Apply(m, ws1) <==> k in Apply(m, ws2)
    ensures k in Apply(m, ws1) ==> Apply(m, ws1)[k] == Apply(m, ws2)[k]
  {
    if i :| 0 <= i < |ws1| && KeyOf(ws1[i]) == k {
      PermutationSameElements(ws1, ws2, ws1[i]);
      ApplyFinds(m, ws1, ws1[i]);
      ApplyFinds(m, ws2, ws1[i]);
    } else {
      forall j | 0 <= j < |ws2|
        ensures KeyOf(ws2[j]) != k
      {
        PermutationSameElements(ws1, ws2, ws2[j]);
      }
      ApplyUntouched(m, ws1, k);
      ApplyUntouched(m, ws2, k);
    }
  }

  /** With one wish per slot, the fold does not depend on the order of the
      wishes: any permutation gives the same map. */
  lemma ApplyOrderIndependent(m: Slots, ws1: seq<Wish>, ws2: seq<Wish>)
    requires multiset(ws1) == multiset(ws2)
    requires OneWishPerSlot(ws1)
    ensures Apply(m, ws1) == Apply(m, ws2)
  {
    PermutationOneWishPerSlot(ws1, ws2);
    var r1, r2 := Apply(m, ws1), Apply(m, ws2);
    forall k
      ensures k in r1 <==> k in r2
      ensures k in r1 ==> r1[k] == r2[k]
    {
      ApplyAgreesAt(m, ws1, ws2, k);
    }
    assert r1.Keys == r2.Keys;
  }
}
