/**
 The receiving side of 6LoWPAN fragmentation (section 5.3 of RFC 4944).  Fragments are told
 apart by datagram size, tag and link-layer addresses; each datagram under reassembly has a
 buffer, a count of the bytes copied into it and the time it was started.
 */
module LowpanDefrag {
  import opened Bytes
  import opened LowpanFrag

  const TIMEOUT := 5000
  const IP6_HEADER := 40

  // ----- Moving bytes -----

  /** `buf` with `data` written at `off`. */
  function Overlay<T>(buf: seq<T>, off: nat, data: seq<T>): (r: seq<T>)
    requires off + |data| <= |buf|
    ensures |r| == |buf|
    ensures forall p :: 0 <= p < |r| ==> r[p] == if off <= p < off + |data| then data[p - off] else buf[p]
  {
    buf[..off] + data + buf[off + |data|..]
  }

  /** `buf_move` inside one buffer: a copy of what the source range held before, however the
      two ranges overlap. */
  method BufMove<T>(a: array<T>, d: nat, s: nat, len: nat)
    requires d + len <= a.Length && s + len <= a.Length
    modifies a
    ensures a[..] == Overlay(old(a[..]), d, old(a[s..s + len]))
  {
    if d < s {
      var i := 0;
      while i < len
        invariant i <= len
        invariant forall p :: 0 <= p < a.Length ==> a[p] == if d <= p < d + i then old(a[s + (p - d)]) else old(a[p])
      {
        a[d + i] := a[s + i];
        i := i + 1;
      }
    } else {
      var i := len;
      while i > 0
        invariant 0 <= i <= len
        invariant forall p :: 0 <= p < a.Length ==> a[p] == if d + i <= p < d + len then old(a[s + (p - d)]) else old(a[p])
      {
        i := i - 1;
        a[d + i] := a[s + i];
      }
    }
  }

  // ----- The reassembly table -----

  datatype Key = Key(size: nat, tag: nat, src: nat, dst: nat)

  /** A reassembly cookie. */
  datatype Slot = Slot(buf: seq<byte>, copied: nat, stamp: nat)

  type Table = map<Key, Slot>

  ghost predicate Valid(t: Table) {
    forall k :: k in t ==> |t[k].buf| == k.size && t[k].copied <= k.size
  }

  /** A fragment whose header has been removed and, if it is a first one, whose IPv6 header has
      been decompressed; or the periodic timer. */
  datatype Event = Fragment(at: nat, key: Key, off: nat, data: seq<byte>) | Timer(at: nat)

  /** The fragment lies within the datagram, which has room for an IPv6 header. */
  predicate Sound(e: Event) {
    e.Fragment? ==> IP6_HEADER <= e.key.size < 2048 && e.off + |e.data| <= e.key.size
  }

  /** `pico_ipv6_finalize`: the payload length is rewritten from the length of the datagram. */
  function Finalize(d: seq<byte>): (r: seq<byte>)
    requires IP6_HEADER <= |d|
  {
    d[4 := High(|d| - IP6_HEADER)][5 := Low(|d| - IP6_HEADER)]
  }

  predicate Stale(s: Slot, now: nat) {
    TIMEOUT <= (now - s.stamp) % 0x1_0000_0000_0000_0000
  }

  function Started(e: Event): Slot
    requires e.Fragment? && Sound(e)
  {
    Slot(Overlay(Zeros(e.key.size), e.off, e.data), |e.data|, e.at)
  }

  function Extended(s: Slot, e: Event): Slot
    requires e.Fragment? && Sound(e) && |s.buf| == e.key.size
  {
    Slot(Overlay(s.buf, e.off, e.data), U16(s.copied + |e.data|), s.stamp)
  }

  function Next(t: Table, e: Event): Table
    requires Valid(t) && Sound(e)
  {
    if e.Timer? then map k | k in t && !Stale(t[k], e.at) :: t[k]
    else if e.key !in t then t[e.key := Started(e)]
    else if Extended(t[e.key], e).copied >= e.key.size then t - {e.key}
    else t[e.key := Extended(t[e.key], e)]
  }

  /** What is handed to the network layer. */
  function Handed(t: Table, e: Event): seq<seq<byte>>
    requires Valid(t) && Sound(e)
  {
    if e.Fragment? && e.key in t && Extended(t[e.key], e).copied >= e.key.size
    then [Finalize(Extended(t[e.key], e).buf)] else []
  }

  lemma NextValid(t: Table, e: Event)
    requires Valid(t) && Sound(e)
    ensures Valid(Next(t, e))
  {}

  class Reassembly {
    var table: Table

    constructor ()
      ensures table == map[]
    {
      table := map[];
    }

    /** `defrag`, `defrag_new` and `defrag_update`. */
    method Defrag(e: Event) returns (out: seq<seq<byte>>)
      requires Valid(table) && Sound(e) && e.Fragment?
      modifies this
      ensures table == Next(old(table), e) && Valid(table) && out == Handed(old(table), e)
    {
      NextValid(table, e);
      hide Overlay, U16, Zeros, Finalize;
      out := [];
      if e.key !in table {
        table := table[e.key := Started(e)];
      } else {
        var slot := Extended(table[e.key], e);
        if slot.copied >= e.key.size {
          table := table - {e.key};
          out := [Finalize(slot.buf)];
        } else {
          table := table[e.key := slot];
        }
      }
    }

    /** `frag_timeout`, which walks over all cookies. */
    method Expire(now: nat)
      requires Valid(table)
      modifies this
      ensures table == Next(old(table), Timer(now)) && Valid(table)
    {
      var todo := table.Keys;
      while todo != {}
        invariant todo <= table.Keys <= old(table.Keys)
        invariant forall k :: k in table ==> table[k] == old(table)[k]
        invariant forall k :: k in old(table) ==> (k in table <==> k in todo || !Stale(old(table)[k], now))
        decreases |todo|
      {
        var k :| k in todo;
        todo := todo - {k};
        if Stale(table[k], now) {
          table := table - {k};
        }
      }
    }
  }
}
