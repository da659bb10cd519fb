/**
 What allocators owe to their clients: the contents of the blocks in use.

 A block starts with one unit of header; foot is the number of units of its footer.  What
 lies between is the client's.
 */
module Payloads {
  import opened Tiling

  /** No payload of a block of us changes. */
  ghost predicate KeepsPayloads<T>(mem: seq<T>, mem': seq<T>, us: Blocks, foot: nat) {
    forall b, u {:trigger us[b], mem'[u]} ::
      b in us && b < u < End(us, b) - foot && u < |mem| && u < |mem'| ==> mem'[u] == mem[u]
  }

  /** The blocks of us are among those of us', which may be larger. */
  ghost predicate SubBlocks(us: Blocks, us': Blocks) {
    forall b :: b in us ==> b in us' && us[b].size <= us'[b].size
  }

  lemma KeepsSelf<T>(mem: seq<T>, us: Blocks, foot: nat)
    ensures KeepsPayloads(mem, mem, us, foot)
  {
  }

  lemma KeepsFewer<T>(mem: seq<T>, mem': seq<T>, us: Blocks, us': Blocks, foot: nat)
    requires KeepsPayloads(mem, mem', us', foot) && SubBlocks(us, us')
    ensures KeepsPayloads(mem, mem', us, foot)
  {
    forall b, u | b in us && b < u < End(us, b) - foot && u < |mem| && u < |mem'| ensures mem'[u] == mem[u] {
      assert us'[b].size >= us[b].size;
    }
  }

  lemma KeepsTrans<T>(m0: seq<T>, m1: seq<T>, m2: seq<T>, us: Blocks, us0: Blocks, us1: Blocks, foot: nat)
    requires KeepsPayloads(m0, m1, us0, foot) && KeepsPayloads(m1, m2, us1, foot) && |m0| <= |m1| <= |m2|
    requires SubBlocks(us, us0) && SubBlocks(us, us1)
    ensures KeepsPayloads(m0, m2, us, foot)
  {
    forall b, u | b in us && b < u < End(us, b) - foot && u < |m0| ensures m2[u] == m0[u] {
      assert us0[b].size >= us[b].size && us1[b].size >= us[b].size;
      assert m1[u] == m0[u];
    }
  }

  lemma KeepsPut<T>(mem: seq<T>, mem': seq<T>, us: Blocks, h: nat, size: nat, foot: nat)
    requires KeepsPayloads(mem, mem', us - {h}, foot)
    requires forall u :: h < u < h + size - foot && u < |mem| && u < |mem'| ==> mem'[u] == mem[u]
    ensures KeepsPayloads(mem, mem', us[h := Block(size, true)], foot)
  {
    var us' := us[h := Block(size, true)];
    forall b, u | b in us' && b < u < End(us', b) - foot && u < |mem| && u < |mem'| ensures mem'[u] == mem[u] {
      if b != h {
        assert (us - {h})[b] == us'[b];
      }
    }
  }

  // ----- What a client believes -----

  /** The contents of the live payloads, by the address of the header. */
  type Shadow<T> = map<nat, seq<T>>

  ghost predicate Holds<T>(mem: seq<T>, us: Blocks, b: nat, content: seq<T>, foot: nat)
    requires b in us
  {
    foot < us[b].size && End(us, b) <= |mem| && mem[b + 1..End(us, b) - foot] == content
  }

  /** The client's live blocks are the blocks in use, and every payload unit holds what the
      client expects. */
  ghost predicate Agrees<T>(mem: seq<T>, us: Blocks, live: Shadow<T>, foot: nat) {
    && live.Keys == us.Keys
    && forall b :: b in us ==> Holds(mem, us, b, live[b], foot)
  }

  /** Operations that keep payloads keep the view of every block that stays in use. */
  lemma AgreesAfter<T>(mem: seq<T>, mem': seq<T>, us: Blocks, us': Blocks, live: Shadow<T>, live': Shadow<T>, foot: nat)
    requires Agrees(mem, us, live, foot) && (forall b :: b in us' ==> b in us && us'[b] == us[b])
    requires KeepsPayloads(mem, mem', us', foot) && |mem| <= |mem'|
    requires live'.Keys == us'.Keys && forall b :: b in us' ==> b in live && live'[b] == live[b]
    ensures Agrees(mem', us', live', foot)
  {
    forall b | b in us' ensures Holds(mem', us', b, live'[b], foot) {
      assert Holds(mem, us, b, live[b], foot);
      forall u | b < u < End(us', b) - foot ensures mem'[u] == mem[u] {
        assert us'[b].size > 0;
      }
      assert mem'[b + 1..End(us', b) - foot] == mem[b + 1..End(us', b) - foot];
    }
  }

  /** A new block comes with whatever its payload holds. */
  lemma AgreesWith<T>(mem: seq<T>, us: Blocks, live: Shadow<T>, b: nat, block: Block, foot: nat)
    requires Agrees(mem, us, live, foot) && b !in us && foot < block.size && b + block.size <= |mem|
    ensures Agrees(mem, us[b := block], live[b := mem[b + 1..b + block.size - foot]], foot)
  {
    var us', live' := us[b := block], live[b := mem[b + 1..b + block.size - foot]];
    forall c | c in us' ensures Holds(mem, us', c, live'[c], foot) {
      if c != b {
        assert Holds(mem, us, c, live[c], foot);
      }
    }
  }

  lemma AgreesAt<T>(mem: seq<T>, us: Blocks, live: Shadow<T>, b: nat, foot: nat)
    requires Agrees(mem, us, live, foot) && b in live
    ensures b in us && foot < us[b].size && End(us, b) <= |mem| && live[b] == mem[b + 1..End(us, b) - foot]
  {
    assert Holds(mem, us, b, live[b], foot);
  }

  lemma AgreesKeys<T>(mem: seq<T>, us: Blocks, live: Shadow<T>, foot: nat)
    requires Agrees(mem, us, live, foot)
    ensures live.Keys == us.Keys
  {
  }

  function Updated<T>(s: seq<T>, index: nat, value: T): seq<T>
    requires index < |s|
  {
    s[..index] + [value] + s[index + 1..]
  }

  /** A store into one payload that leaves the others alone. */
  lemma StoreAgrees<T>(mem: seq<T>, mem': seq<T>, us: Blocks, live: Shadow<T>, b: nat, index: nat, value: T, foot: nat)
    requires Agrees(mem, us, live, foot) && b in live && index < |live[b]|
    requires KeepsPayloads(mem, mem', us - {b}, foot) && b + 1 + index < |mem| && mem' == mem[b + 1 + index := value]
    ensures Agrees(mem', us, live[b := Updated(live[b], index, value)], foot)
  {
    hide KeepsPayloads, Agrees;
    var rest: Blocks := us - {b};
    AgreesAt(mem, us, live, b, foot);
    AgreesKeys(mem, us, live, foot);
    AgreesAfter(mem, mem', us, rest, live, live - {b}, foot);
    AgreesWith(mem', rest, live - {b}, b, us[b], foot);
    assert us == rest[b := us[b]];
    var content := mem'[b + 1..End(us, b) - foot];
    assert content == Updated(live[b], index, value);
    assert (live - {b})[b := content] == live[b := content];
  }
}
