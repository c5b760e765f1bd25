/** The save format as a sequence of abstract, typed fields, in the order the
    savers write them and the loaders read them back. */
module SaveStream {
  import opened Types
  import opened KeyOrder

  /** One value written by a saver. A level's own serialised form is opaque
      and carried whole by `LevelBody`. */
  datatype Field =
    | U32(n: nat)
    | I32(v: int)
    | Flag(b: bool)
    | TickValue(t: nat)
    | LevelBody(level: GameLevel)

  /** What `BasicMonsterBehaviour::save` writes: the tick counter and nothing else. */
  function EncodeTicks(t: nat): seq<Field> {
    [TickValue(t)]
  }

  /** What the loader constructor reads: one tick value; the rest of the stream is left. */
  function DecodeTicks(s: seq<Field>): Option<(nat, seq<Field>)> {
    if |s| > 0 && s[0].TickValue? then Some((s[0].t, s[1..])) else None
  }

  /** The behaviour's counter survives a save followed by a load, and the
      loader consumes exactly the saved field. */
  lemma TicksRoundTrip(t: nat, rest: seq<Field>)
    ensures DecodeTicks(EncodeTicks(t) + rest) == Some((t, rest))
  {
  }

  /** The part of the world state that `World::save` persists. */
  datatype WorldImage = WorldImage(levels: map<nat, Option<GameLevel>>, playerId: int, nextId: int)

  /** One level-store entry: the index, a presence flag, and the level body if present. */
  function EncodeEntry(k: nat, slot: Option<GameLevel>): seq<Field> {
    [I32(k), Flag(slot.Some?)] + (if slot.Some? then [LevelBody(slot.value)] else [])
  }

  /** The entries for `keys`, in that order. */
  function EncodeLevels(m: map<nat, Option<GameLevel>>, keys: seq<nat>): seq<Field>
    requires forall k :: k in keys ==> k in m
  {
    if keys == [] then [] else EncodeEntry(keys[0], m[keys[0]]) + EncodeLevels(m, keys[1..])
  }

  /** The whole stream `World::save` writes: the level count, every entry in
      ascending key order, the current player's id, then the next free actor id. */
  ghost function EncodeWorld(img: WorldImage): seq<Field> {
    [U32(|img.levels|)] + EncodeLevels(img.levels, Ascending(img.levels.Keys))
      + [I32(img.playerId), I32(img.nextId)]
  }

  /** Reads `count` entries, storing each into `acc` (a later entry with the
      same index overwrites an earlier one, as `mLevels[levelIndex] = level` does). */
  function DecodeLevels(s: seq<Field>, count: nat, acc: map<nat, Option<GameLevel>>)
    : Option<(map<nat, Option<GameLevel>>, seq<Field>)>
    decreases count
  {
    if count == 0 then Some((acc, s))
    else if |s| < 2 || !s[0].I32? || s[0].v < 0 || !s[1].Flag? then None
    else if !s[1].b then DecodeLevels(s[2..], count - 1, acc[s[0].v := None])
    else if |s| < 3 || !s[2].LevelBody? then None
    else DecodeLevels(s[3..], count - 1, acc[s[0].v := Some(s[2].level)])
  }

  /** What the load constructor reads, in the order `World::save` wrote it. */
  function DecodeWorld(s: seq<Field>): Option<WorldImage> {
    if |s| == 0 || !s[0].U32? then None
    else
      match DecodeLevels(s[1..], s[0].n, map[])
      case None => None
      case Some((m, rest)) =>
        if |rest| >= 2 && rest[0].I32? && rest[1].I32? then Some(WorldImage(m, rest[0].v, rest[1].v))
        else None
  }

  /** The slots of `m` named by `keys`. */
  function Slots(m: map<nat, Option<GameLevel>>, keys: seq<nat>): map<nat, Option<GameLevel>>
    requires forall k :: k in keys ==> k in m
  {
    map k | k in keys :: m[k]
  }

  /** One entry read by the decoder: what a successful read implies about the
      stream, and the state it continues from. */
  lemma DecodeStep(s: seq<Field>, count: nat, acc: map<nat, Option<GameLevel>>)
    requires count > 0 && DecodeLevels(s, count, acc).Some?
    ensures |s| >= 2 && s[0].I32? && s[0].v >= 0 && s[1].Flag?
    ensures s[1].b ==>
      && |s| >= 3 && s[2].LevelBody?
      && DecodeLevels(s, count, acc) == DecodeLevels(s[3..], count - 1, acc[s[0].v := Some(s[2].level)])
    ensures !s[1].b ==> DecodeLevels(s, count, acc) == DecodeLevels(s[2..], count - 1, acc[s[0].v := None])
  {
  }

  lemma DecodeEntry(k: nat, slot: Option<GameLevel>, tail: seq<Field>, count: nat, acc: map<nat, Option<GameLevel>>)
    ensures DecodeLevels(EncodeEntry(k, slot) + tail, count + 1, acc) == DecodeLevels(tail, count, acc[k := slot])
  {
    var s := EncodeEntry(k, slot) + tail;
    if slot.Some? {
      assert s[3..] == tail;
    } else {
      assert s[2..] == tail;
    }
  }

  lemma SlotsCons(m: map<nat, Option<GameLevel>>, keys: seq<nat>, acc: map<nat, Option<GameLevel>>)
    requires forall k :: k in keys ==> k in m
    requires keys != [] && keys[0] !in keys[1..]
    ensures acc[keys[0] := m[keys[0]]] + Slots(m, keys[1..]) == acc + Slots(m, keys)
  {
    var lhs := acc[keys[0] := m[keys[0]]] + Slots(m, keys[1..]);
    var rhs := acc + Slots(m, keys);
    assert forall k :: k in keys <==> k == keys[0] || k in keys[1..];
    assert lhs.Keys == rhs.Keys;
    forall k | k in lhs.Keys ensures lhs[k] == rhs[k] {
    }
  }

  lemma {:induction false} DecodeEncodeLevels(
    m: map<nat, Option<GameLevel>>, keys: seq<nat>, acc: map<nat, Option<GameLevel>>, rest: seq<Field>)
    requires forall k :: k in keys ==> k in m
    requires StrictlyIncreasing(keys)
    ensures DecodeLevels(EncodeLevels(m, keys) + rest, |keys|, acc) == Some((acc + Slots(m, keys), rest))
  {
    if keys == [] {
      assert EncodeLevels(m, keys) + rest == rest;
      assert acc + Slots(m, keys) == acc;
    } else {
      var k0, tail := keys[0], keys[1..];
      var later := EncodeLevels(m, tail) + rest;
      var acc' := acc[k0 := m[k0]];
      assert EncodeLevels(m, keys) + rest == EncodeEntry(k0, m[k0]) + later by {
        ConcatAssoc(EncodeEntry(k0, m[k0]), EncodeLevels(m, tail), rest);
      }
      assert DecodeLevels(EncodeEntry(k0, m[k0]) + later, |keys|, acc) == DecodeLevels(later, |tail|, acc') by {
        DecodeEntry(k0, m[k0], later, |tail|, acc);
      }
      assert DecodeLevels(later, |tail|, acc') == Some((acc' + Slots(m, tail), rest)) by {
        assert forall i :: 0 <= i < |tail| ==> tail[i] == keys[i + 1];
        DecodeEncodeLevels(m, tail, acc', rest);
      }
      assert acc' + Slots(m, tail) == acc + Slots(m, keys) by {
        assert k0 !in tail by {
          forall i | 0 <= i < |tail| ensures tail[i] != k0 {
            assert keys[0] < keys[i + 1];
          }
        }
        SlotsCons(m, keys, acc);
      }
    }
  }

  /** One step of `World::save`'s walk: writing the entry of the smallest
      remaining key leaves the entries of the other remaining keys to write. */
  lemma EncodeNextEntry(m: map<nat, Option<GameLevel>>, remaining: set<nat>, k: nat, written: seq<Field>, whole: seq<Field>)
    requires remaining <= m.Keys && k in remaining && forall j :: j in remaining ==> k <= j
    requires written + EncodeLevels(m, Ascending(remaining)) == whole
    ensures (written + EncodeEntry(k, m[k])) + EncodeLevels(m, Ascending(remaining - {k})) == whole
  {
    var all := Ascending(remaining);
    var later := Ascending(remaining - {k});
    AscendingStartsAtMin(remaining, k);
    assert all != [] && all[0] == k && all[1..] == later;
    assert EncodeLevels(m, all) == EncodeEntry(k, m[k]) + EncodeLevels(m, later);
    ConcatAssoc(written, EncodeEntry(k, m[k]), EncodeLevels(m, later));
  }

  lemma ConcatAssoc<T>(a: seq<T>, b: seq<T>, c: seq<T>)
    ensures a + (b + c) == (a + b) + c
  {
  }

  lemma SlotsOfKeys(m: map<nat, Option<GameLevel>>, keys: seq<nat>)
    requires forall k :: k in keys <==> k in m
    ensures map[] + Slots(m, keys) == m
  {
  }

  lemma DecodeWorldFrame(n: nat, entries: seq<Field>, img: WorldImage)
    requires DecodeLevels(entries + [I32(img.playerId), I32(img.nextId)], n, map[])
          == Some((img.levels, [I32(img.playerId), I32(img.nextId)]))
    ensures DecodeWorld([U32(n)] + entries + [I32(img.playerId), I32(img.nextId)]) == Some(img)
  {
    var s := [U32(n)] + entries + [I32(img.playerId), I32(img.nextId)];
    assert s[1..] == entries + [I32(img.playerId), I32(img.nextId)];
  }

  /** The entries of a store written for all of its keys in increasing order,
      read back from an empty map, rebuild the store. */
  lemma DecodeSortedEntries(m: map<nat, Option<GameLevel>>, keys: seq<nat>, rest: seq<Field>)
    requires forall k :: k in keys <==> k in m
    requires StrictlyIncreasing(keys) && |keys| == |m|
    ensures DecodeLevels(EncodeLevels(m, keys) + rest, |m|, map[]) == Some((m, rest))
  {
    DecodeEncodeLevels(m, keys, map[], rest);
    SlotsOfKeys(m, keys);
  }

  /** The entries of the whole store, read back from an empty map, rebuild the store. */
  lemma DecodeAllEntries(m: map<nat, Option<GameLevel>>, rest: seq<Field>)
    ensures DecodeLevels(EncodeLevels(m, Ascending(m.Keys)) + rest, |m|, map[]) == Some((m, rest))
  {
    var keys := Ascending(m.Keys);
    assert |m.Keys| == |m|;
    DecodeSortedEntries(m, keys, rest);
  }

  /** Loading what was saved gives back the same key set, the same presence
      flags and level bodies, the same current-player id and the same next id. */
  lemma WorldRoundTrip(img: WorldImage)
    ensures DecodeWorld(EncodeWorld(img)) == Some(img)
  {
    var entries := EncodeLevels(img.levels, Ascending(img.levels.Keys));
    DecodeAllEntries(img.levels, [I32(img.playerId), I32(img.nextId)]);
    DecodeWorldFrame(|img.levels|, entries, img);
  }
}
