/** The chunked byte reader and writer for AMF data, over zero-copy streams. */
module Amf {
  import opened Arithmetic
  import opened Sequences

  type byte = x: int | 0 <= x < 256

  function Flatten(chunks: seq<seq<byte>>): seq<byte>
  {
    if chunks == [] then [] else chunks[0] + Flatten(chunks[1..])
  }

  lemma {:induction false} FlattenLast(chunks: seq<seq<byte>>)
    requires chunks != []
    ensures Flatten(chunks) == Flatten(chunks[..|chunks| - 1]) + chunks[|chunks| - 1]
  {
    var n := |chunks| - 1;
    if n > 0 {
      FlattenLast(chunks[1..]);
      assert chunks[..n][1..] == chunks[1..][..n - 1];
    }
  }

  function Min(a: nat, b: nat): nat
  {
    if a <= b then a else b
  }

  /* ---------------------------------------------------------------- network byte order */

  /** Numbers that fit in `w` bytes are those below this limit. */
  function Limit(w: nat): nat
  {
    if w == 0 then 1 else 256 * Limit(w - 1)
  }

  function ToBytes(v: nat, w: nat): (r: seq<byte>)
    ensures |r| == w
  {
    if w == 0 then [] else ToBytes(v / 256, w - 1) + [v % 256]
  }

  function FromBytes(s: seq<byte>): nat
  {
    if s == [] then 0 else 256 * FromBytes(s[..|s| - 1]) + s[|s| - 1]
  }

  /** Host and network order are inverse to each other. */
  lemma {:induction false} BytesRoundTrip(v: nat, w: nat)
    requires v < Limit(w)
    ensures FromBytes(ToBytes(v, w)) == v
  {
    if w > 0 {
      BytesRoundTrip(v / 256, w - 1);
      assert ToBytes(v, w)[..w - 1] == ToBytes(v / 256, w - 1);
    }
  }

  lemma LimitPositive(w: nat)
    ensures Limit(w) > 0
  {
  }

  lemma RemainderTwice(a: int, b: int, k: int, r: int, r': int)
    requires 0 <= r < b && 0 <= r' < a
    ensures a * (b * k + r) + r' == k * (a * b) + (a * r + r') && 0 <= a * r + r' < a * b
  {
    assert a * (b * k + r) == a * (b * k) + a * r && a * (b * k) == k * (a * b);
    assert a * r <= a * (b - 1) == a * b - a;
  }

  lemma DivisionTwice(v: nat, a: nat, b: nat)
    requires a > 0 && b > 0
    ensures a * b > 0 && v / a / b == v / (a * b)
  {
    var q, m := v / a, a * b;
    var k, r := q / b, q % b;
    RemainderTwice(a, b, k, r, v % a);
    assert v == a * q + v % a && q == b * k + r;
    DivisionUnique(m, k, a * r + v % a, v / m, v % m);
  }

  /** Network order: byte `k` of `w` is the digit of weight `256^(w - 1 - k)`. */
  lemma {:induction false} NetworkOrder(v: nat, w: nat, k: nat)
    requires k < w
    ensures Limit(w - 1 - k) > 0 && ToBytes(v, w)[k] == (v / Limit(w - 1 - k)) % 256
    decreases w
  {
    LimitPositive(w - 1 - k);
    if k < w - 1 {
      LimitPositive(w - 2 - k);
      NetworkOrder(v / 256, w - 1, k);
      DivisionTwice(v, 256, Limit(w - 2 - k));
    }
  }

  /** The bytes of a number with their weights. */
  function PlaceValues(s: seq<byte>): (r: seq<int>)
    ensures |r| == |s|
  {
    seq(|s|, k requires 0 <= k < |s| => s[k] * Limit(|s| - 1 - k))
  }

  lemma PlaceValuesLast(s: seq<byte>)
    requires s != []
    ensures var n := |s| - 1;
            && PlaceValues(s)[n] == s[n]
            && forall k :: 0 <= k < n ==>
                 PlaceValues(s)[..n][k] == 256 * PlaceValues(s[..n])[k] + 0 * PlaceValues(s[..n])[k]
  {
    var n := |s| - 1;
    forall k | 0 <= k < n
      ensures PlaceValues(s)[..n][k] == 256 * PlaceValues(s[..n])[k]
    {
      assert PlaceValues(s)[k] == s[k] * Limit(n - k) && Limit(n - k) == 256 * Limit(n - 1 - k);
      assert PlaceValues(s[..n])[k] == s[k] * Limit(n - 1 - k);
      Scaled(s[k], Limit(n - 1 - k));
    }
    assert PlaceValues(s)[n] == s[n] * Limit(0) && Limit(0) == 1;
  }

  lemma Scaled(x: int, l: int)
    ensures x * (256 * l) == 256 * (x * l)
  {
  }

  lemma {:induction false} FromNetworkOrder(s: seq<byte>)
    ensures FromBytes(s) == Sum(PlaceValues(s))
  {
    if s != [] {
      var n := |s| - 1;
      FromNetworkOrder(s[..n]);
      PlaceValuesLast(s);
      hide PlaceValues;
      SumCombination(PlaceValues(s)[..n], PlaceValues(s[..n]), PlaceValues(s[..n]), 256, 0);
    }
  }

  /** Missing low-order bytes that count as zero shift the bytes that are there. */
  lemma {:induction false} FromPaddedBytes(s: seq<byte>, n: nat)
    ensures FromBytes(s + Zeros(n)) == Sum(PlaceValues(s)) * Limit(n)
    decreases n
  {
    if n == 0 {
      FromNetworkOrder(s);
      assert s + Zeros(0) == s;
    } else {
      FromPaddedBytes(s, n - 1);
      assert (s + Zeros(n))[..|s| + n - 1] == s + Zeros(n - 1);
      Scaled(Sum(PlaceValues(s)), Limit(n - 1));
    }
  }

  function Zeros(n: nat): (r: seq<byte>)
    ensures |r| == n
  {
    seq(n, _ => 0)
  }

  lemma AppendSlice(w: seq<byte>, s: seq<byte>, at: nat, k: nat)
    requires at + k <= |s|
    ensures w + s[..at] + s[at..at + k] == w + s[..at + k]
  {
  }

  /** A window at the front of the rest of a flat string. */
  lemma WindowSlice(flat: seq<byte>, at: nat, window: seq<byte>, rest: seq<byte>, k: nat)
    requires at <= |flat| && window + rest == flat[at..] && k <= |window|
    ensures at + k <= |flat|
    ensures flat[..at] + window[..k] == flat[..at + k]
    ensures window[k..] + rest == flat[at + k..]
  {
    assert window[..k] == (window + rest)[..k];
    assert window[k..] + rest == (window + rest)[k..];
  }

  /* ---------------------------------------------------------------- reading */

  /** An input stream that hands out its bytes in chunks of any sizes, zero included. */
  class ZeroCopyInput {
    var chunks: seq<seq<byte>>

    constructor (chunks: seq<seq<byte>>)
      ensures this.chunks == chunks
    {
      this.chunks := chunks;
    }

    method Next() returns (ok: bool, data: seq<byte>)
      modifies this
      ensures ok <==> old(chunks) != []
      ensures ok ==> data == old(chunks)[0] && chunks == old(chunks)[1..]
      ensures !ok ==> data == [] && chunks == old(chunks)
    {
      if chunks == [] {
        return false, [];
      }
      ok, data := true, chunks[0];
      chunks := chunks[1..];
    }
  }

  /** What the reader takes for an empty input. */
  predicate ReportsEmpty(window: seq<byte>, chunks: seq<seq<byte>>)
  {
    window == [] && chunks == []
  }

  /** An input without bytes that the reader does not take for empty. */
  lemma EmptyChunkNotReported()
    ensures Flatten([[]]) == [] && !ReportsEmpty([], [[]])
  {
  }

  class AmfInputStream {
    const stream: ZeroCopyInput
    var good: bool
    var data: seq<byte>
    var popped: nat

    constructor (stream: ZeroCopyInput)
      ensures this.stream == stream && good && popped == 0
      ensures Remaining() == Flatten(stream.chunks)
    {
      this.stream := stream;
      good, data, popped := true, [], 0;
    }

    /** The flat bytes still to be read. */
    function Remaining(): seq<byte>
      reads this, stream
    {
      data + Flatten(stream.chunks)
    }

    /** Drops the current window and moves to the next chunk. */
    method NextChunk() returns (ok: bool)
      modifies this`data, stream
      ensures Remaining() == old(Remaining())[|old(data)|..]
      ensures ok ==> |stream.chunks| < |old(stream.chunks)|
      ensures !ok ==> Remaining() == [] && data == []
    {
      ghost var flat, skip := Remaining(), |data|;
      assert flat[skip..] == Flatten(stream.chunks);
      ok, data := stream.Next();
    }

    /** Cuts at most `n` bytes off the front. */
    method Cutn(n: nat) returns (out: seq<byte>, ret: nat)
      modifies this, stream
      ensures ret == Min(n, |old(Remaining())|)
      ensures out == old(Remaining())[..ret]
      ensures Remaining() == old(Remaining())[ret..]
      ensures popped == old(popped) + ret && good == old(good)
    {
      ghost var flat := Remaining();
      var left := n;
      out := [];
      while true
        invariant 0 <= left <= n && n - left <= |flat|
        invariant out == flat[..n - left] && Remaining() == flat[n - left..]
        invariant popped == old(popped) && good == old(good)
        decreases |stream.chunks|
      {
        ghost var at := n - left;
        WindowSlice(flat, at, data, Flatten(stream.chunks), Min(left, |data|));
        if |data| >= left {
          out := out + data[..left];
          data := data[left..];
          popped := popped + n;
          return out, n;
        }
        out := out + data;
        left := left - |data|;
        var ok := NextChunk();
        if !ok {
          break;
        }
      }
      popped := popped + (n - left);
      return out, n - left;
    }

    /** True exactly when the window is empty and the stream has no further chunk. */
    method CheckEmptiness() returns (empty: bool)
      modifies this, stream
      ensures empty <==> ReportsEmpty(old(data), old(stream.chunks))
      ensures empty ==> old(Remaining()) == []
      ensures (empty <==> old(Remaining()) == []) <==>
              !(old(data) == [] && old(stream.chunks) != [] && Flatten(old(stream.chunks)) == [])
      ensures Remaining() == old(Remaining()) && popped == old(popped) && good == old(good)
    {
      if data != [] {
        return false;
      }
      var ok, chunk := stream.Next();
      if ok {
        data := chunk;
      }
      return !ok;
    }

    /** `cur` is what the caller's variable holds; it keeps it when the stream is empty. */
    method CutU8(cur: byte) returns (val: byte, ret: nat)
      modifies this, stream
      ensures ret == Min(1, |old(Remaining())|)
      ensures val == if ret == 1 then old(Remaining())[0] else cur
      ensures Remaining() == old(Remaining())[ret..]
      ensures popped == old(popped) + ret && good == old(good)
    {
      if |data| >= 1 {
        val := data[0];
        data := data[1..];
        popped := popped + 1;
        return val, 1;
      }
      var out;
      out, ret := Cutn(1);
      val := if ret == 1 then out[0] else cur;
    }

    /** `cut_u16`, `cut_u32` and `cut_u64`, for widths 2, 4 and 8: the bytes read are the high-order ones,
        missing bytes count as zero. */
    method CutUint(w: nat) returns (val: nat, ret: nat)
      requires w == 2 || w == 4 || w == 8
      modifies this, stream
      ensures ret == Min(w, |old(Remaining())|)
      ensures val == FromBytes(old(Remaining())[..ret] + Zeros(w - ret))
      ensures val == Sum(PlaceValues(old(Remaining())[..ret])) * Limit(w - ret)
      ensures Remaining() == old(Remaining())[ret..]
      ensures popped == old(popped) + ret && good == old(good)
    {
      hide FromBytes, PlaceValues, Sum, Limit, Zeros, Flatten;
      if |data| >= w {
        assert data[..w] + Zeros(0) == data[..w] == Remaining()[..w];
        FromPaddedBytes(data[..w], 0);
        val := FromBytes(data[..w]);
        data := data[w..];
        popped := popped + w;
        return val, w;
      }
      var out;
      out, ret := Cutn(w);
      FromPaddedBytes(out, w - ret);
      val := FromBytes(out + Zeros(w - ret));
    }
  }

  /* ---------------------------------------------------------------- writing */

  /** What the next request for a buffer will give: nothing, or a buffer with stale content. */
  datatype Grant = Refuse | Buffer(stale: seq<byte>)

  /** Bytes that can still be granted before the first refusal. */
  function Room(grants: seq<Grant>): nat
  {
    if grants == [] || grants[0].Refuse? then 0 else |grants[0].stale| + Room(grants[1..])
  }

  predicate NeverRefuses(grants: seq<Grant>)
  {
    forall i :: 0 <= i < |grants| ==> grants[i].Buffer?
  }

  /** What is left of an attempt to place `n` bytes: how many found a place, the unused end of the last
      buffer, and the grants not asked for yet. A refusal is used up by the attempt it ends. */
  datatype Placed = Placed(count: nat, size: nat, grants: seq<Grant>)

  function Place(size: nat, grants: seq<Grant>, n: nat): (r: Placed)
    ensures r.count == Min(n, size + Room(grants))
    ensures r.count == n ==> r.size + Room(r.grants) == size + Room(grants) - n
    ensures r.count < n ==> r.size == 0
    ensures NeverRefuses(grants) ==> NeverRefuses(r.grants) && (r.count < n ==> r.grants == [])
    decreases |grants|
  {
    if n <= size then Placed(n, size - n, grants)
    else if grants == [] then Placed(size, 0, [])
    else if grants[0].Refuse? then Placed(size, 0, grants[1..])
    else
      var r := Place(|grants[0].stale|, grants[1..], n - size);
      AddCount(r, size)
  }

  /** The writer's state as a value: the bytes written and their number, whether every write found its
      place, the unused end of the current buffer, and the grants to come. */
  datatype Sink = Sink(written: seq<byte>, pushed: nat, good: bool, size: nat, grants: seq<Grant>)
  {
    function Free(): nat
    {
      size + Room(grants)
    }

    /** Appends the part of `bytes` that finds a place. */
    function Put(bytes: seq<byte>): Sink
    {
      var r := Place(size, grants, |bytes|);
      Sink(written + bytes[..r.count], pushed + r.count, good && r.count == |bytes|, r.size, r.grants)
    }

    function PutAll(pieces: seq<seq<byte>>): Sink
    {
      if pieces == [] then this else PutAll(pieces[..|pieces| - 1]).Put(pieces[|pieces| - 1])
    }
  }

  function AddCount(r: Placed, k: nat): Placed
  {
    r.(count := r.count + k)
  }

  lemma PutInBuffer(s: Sink, bytes: seq<byte>)
    requires |bytes| <= s.size
    ensures s.Put(bytes) == s.(written := s.written + bytes, pushed := s.pushed + |bytes|, size := s.size - |bytes|)
  {
    assert bytes[..|bytes|] == bytes;
  }

  lemma PlaceNext(size: nat, grants: seq<Grant>, n: nat)
    requires size < n
    ensures Place(size, grants, n) ==
            if grants == [] then Placed(size, 0, [])
            else if grants[0].Refuse? then Placed(size, 0, grants[1..])
            else AddCount(Place(|grants[0].stale|, grants[1..], n - size), size)
  {
  }

  /** A write that does not fit the current buffer fills it and goes on with the next one granted. */
  lemma PutFillsBuffer(s: Sink, bytes: seq<byte>)
    requires s.size < |bytes|
    ensures var full := Sink(s.written + bytes[..s.size], s.pushed + s.size, s.good, 0, s.grants);
            if s.grants == [] then s.Put(bytes) == full.(good := false)
            else if s.grants[0].Refuse? then s.Put(bytes) == full.(good := false, grants := s.grants[1..])
            else s.Put(bytes) == full.(size := |s.grants[0].stale|, grants := s.grants[1..]).Put(bytes[s.size..])
  {
    hide Place, Room, NeverRefuses;
    PlaceNext(s.size, s.grants, |bytes|);
    if s.grants != [] && s.grants[0].Buffer? {
      var r := Place(|s.grants[0].stale|, s.grants[1..], |bytes| - s.size);
      AppendSlice(s.written, bytes, s.size, r.count);
      assert bytes[s.size..][..r.count] == bytes[s.size..s.size + r.count];
    }
  }

  /** An output stream: `space` is all the bytes it has handed out and not taken back. */
  class ZeroCopyOutput {
    var space: seq<byte>
    var grants: seq<Grant>
    var lastGrant: nat

    constructor (grants: seq<Grant>)
      ensures space == [] && this.grants == grants && lastGrant == 0
    {
      space, lastGrant := [], 0;
      this.grants := grants;
    }

    method Next() returns (ok: bool, size: nat)
      modifies this
      ensures ok <==> old(grants) != [] && old(grants)[0].Buffer?
      ensures old(grants) == [] ==> grants == []
      ensures old(grants) != [] ==> grants == old(grants)[1..]
      ensures ok ==> space == old(space) + old(grants)[0].stale && size == |old(grants)[0].stale| == lastGrant
      ensures !ok ==> space == old(space) && size == 0 && lastGrant == old(lastGrant)
    {
      if grants == [] {
        return false, 0;
      }
      var grant := grants[0];
      grants := grants[1..];
      if grant.Refuse? {
        return false, 0;
      }
      space := space + grant.stale;
      lastGrant := |grant.stale|;
      return true, |grant.stale|;
    }

    /** Takes back the unused end of the last buffer. */
    method BackUp(count: nat)
      requires count <= lastGrant && count <= |space|
      modifies this
      ensures space == old(space)[..|old(space)| - count] && grants == old(grants)
    {
      space := space[..|space| - count];
      lastGrant := 0;
    }

    method Store(at: nat, bytes: seq<byte>)
      requires at + |bytes| <= |space|
      modifies this
      ensures space == old(space)[..at] + bytes + old(space)[at + |bytes|..]
      ensures grants == old(grants) && lastGrant == old(lastGrant)
    {
      space := space[..at] + bytes + space[at + |bytes|..];
    }
  }

  class AmfOutputStream {
    const stream: ZeroCopyOutput
    ghost const start: nat
    var good: bool
    var size: nat
    var pushed: nat

    /** The unused end of the current buffer is the end of the last buffer granted. */
    ghost predicate WindowAtEnd()
      reads this, stream
    {
      size <= stream.lastGrant && size <= |stream.space|
    }

    ghost predicate Valid()
      reads this, stream
    {
      WindowAtEnd() && start + pushed == |Written()|
    }

    /** The bytes written so far: everything before the unused end of the current buffer. */
    ghost function Written(): seq<byte>
      requires size <= |stream.space|
      reads this, stream
    {
      stream.space[..|stream.space| - size]
    }

    ghost function State(): Sink
      requires size <= |stream.space|
      reads this, stream
    {
      Sink(Written(), pushed, good, size, stream.grants)
    }

    constructor (stream: ZeroCopyOutput)
      ensures Valid() && this.stream == stream
      ensures State() == Sink(stream.space, 0, true, 0, stream.grants)
    {
      this.stream := stream;
      start := |stream.space|;
      good, size, pushed := true, 0, 0;
    }

    /** Copies `bytes` into the current buffer. */
    method Fill(bytes: seq<byte>)
      requires WindowAtEnd() && |bytes| <= size
      modifies this`size, stream
      ensures WindowAtEnd() && Written() == old(Written()) + bytes
      ensures size == old(size) - |bytes| && stream.grants == old(stream.grants)
    {
      stream.Store(|stream.space| - size, bytes);
      size := size - |bytes|;
    }

    /** The state after `at` bytes of a write, which are counted only at its end. */
    ghost function Partial(at: nat): Sink
      requires size <= |stream.space|
      reads this, stream
    {
      State().(pushed := pushed + at)
    }

    /** One round of a write: fills the current buffer with the bytes from `at` on and, if some are
        left, asks for the next buffer. `more` says that one was granted. */
    method PutRound(bytes: seq<byte>, at: nat) returns (n: nat, more: bool)
      requires WindowAtEnd() && at <= |bytes|
      modifies this`size, stream
      ensures WindowAtEnd() && at + n <= |bytes| && |Written()| == |old(Written())| + n
      ensures more ==> |stream.grants| < |old(stream.grants)|
      ensures more ==> Partial(at + n).Put(bytes[at + n..]) == old(Partial(at)).Put(bytes[at..])
      ensures !more ==> Partial(at + n).(good := good && at + n == |bytes|) == old(Partial(at)).Put(bytes[at..])
    {
      hide Sink.Put, Room;
      ghost var s, rest := Partial(at), bytes[at..];
      if |bytes| - at <= size {
        n := |bytes| - at;
        PutInBuffer(s, rest);
        Fill(bytes[at..]);
        return n, false;
      }
      n := size;
      PutFillsBuffer(s, rest);
      assert rest[..n] == bytes[at..at + n] && rest[n..] == bytes[at + n..];
      Fill(bytes[at..at + n]);
      more, size := stream.Next();
      assert Partial(at + n) == Sink(s.written + rest[..n], s.pushed + n, s.good, size, stream.grants);
    }

    /** Appends the part of `bytes` that the stream grants buffers for, and turns bad if some is left. */
    method Putn(bytes: seq<byte>)
      requires Valid()
      modifies this, stream
      ensures Valid() && State() == old(State()).Put(bytes)
    {
      hide Sink.Put, Room;
      var at := 0;
      assert bytes[0..] == bytes;
      while true
        invariant WindowAtEnd() && 0 <= at <= |bytes| && pushed == old(pushed) && good == old(good)
        invariant start + pushed + at == |Written()|
        invariant Partial(at).Put(bytes[at..]) == old(State()).Put(bytes)
        decreases |stream.grants|
      {
        var n, more := PutRound(bytes, at);
        at := at + n;
        if !more {
          break;
        }
      }
      pushed := pushed + at;
      if at < |bytes| {
        good := false;
      }
    }

    method PutU8(val: byte)
      requires Valid()
      modifies this, stream
      ensures Valid() && State() == old(State()).Put([val])
    {
      hide Sink.Put, Room;
      while true
        invariant Valid() && State().Put([val]) == old(State()).Put([val])
        decreases |stream.grants|
      {
        ghost var s := State();
        if size > 0 {
          PutInBuffer(s, [val]);
          Fill([val]);
          pushed := pushed + 1;
          return;
        }
        PutFillsBuffer(s, [val]);
        assert s.written + [val][..0] == s.written && [val][0..] == [val];
        var ok;
        ok, size := stream.Next();
        assert State() == s.(size := size, grants := stream.grants);
        if !ok {
          break;
        }
      }
      good := false;
    }

    /** `put_u16`, `put_u32` and `put_u64`. */
    method PutUint(val: nat, w: nat)
      requires Valid() && (w == 2 || w == 4 || w == 8) && val < Limit(w)
      modifies this, stream
      ensures Valid() && State() == old(State()).Put(ToBytes(val, w))
      ensures forall k :: 0 <= k < w ==>
                Limit(w - 1 - k) > 0 && ToBytes(val, w)[k] == (val / Limit(w - 1 - k)) % 256
    {
      forall k | 0 <= k < w
        ensures Limit(w - 1 - k) > 0 && ToBytes(val, w)[k] == (val / Limit(w - 1 - k)) % 256
      {
        NetworkOrder(val, w, k);
      }
      Putn(ToBytes(val, w));
    }

    /** Gives the unused end of the current buffer back, unless an earlier write failed. */
    method Done()
      requires Valid()
      modifies this, stream
      ensures Valid() && State() == old(State()).(size := if good then 0 else old(size))
      ensures good ==> stream.space == Written()
    {
      if good && size > 0 {
        stream.BackUp(size);
        size := 0;
      }
    }
  }

  /* ---------------------------------------------------------------- whole sequences of calls */

  /** One call: a byte, a number of `w` bytes, or raw bytes. */
  datatype Item = U8(b: byte) | Uint(w: nat, v: nat) | Raw(bytes: seq<byte>)
  {
    predicate Valid()
    {
      Uint? ==> (w == 2 || w == 4 || w == 8) && v < Limit(w)
    }

    function Encoding(): seq<byte>
    {
      match this
      case U8(b) => [b]
      case Uint(w, v) => ToBytes(v, w)
      case Raw(bytes) => bytes
    }
  }

  predicate AllValid(items: seq<Item>)
  {
    forall i :: 0 <= i < |items| ==> items[i].Valid()
  }

  function Pieces(items: seq<Item>): (r: seq<seq<byte>>)
    ensures |r| == |items|
  {
    seq(|items|, i requires 0 <= i < |items| => items[i].Encoding())
  }

  function Encodings(items: seq<Item>): seq<byte>
  {
    Flatten(Pieces(items))
  }

  /* ---------------------------------------------------------------- sequences of writes */

  lemma PutGood(s: Sink, bytes: seq<byte>)
    ensures s.Put(bytes).good <==> s.good && |bytes| <= s.Free()
    ensures |bytes| <= s.Free() ==>
              && s.Put(bytes).written == s.written + bytes
              && s.Put(bytes).pushed == s.pushed + |bytes|
              && s.Put(bytes).Free() == s.Free() - |bytes|
  {
    hide Place, Room;
  }

  /** Writing is good exactly while everything fits, and then everything has been written. */
  lemma {:induction false} PutAllGood(s: Sink, pieces: seq<seq<byte>>)
    ensures s.PutAll(pieces).good <==> s.good && |Flatten(pieces)| <= s.Free()
    ensures |Flatten(pieces)| <= s.Free() ==>
              && s.PutAll(pieces).written == s.written + Flatten(pieces)
              && s.PutAll(pieces).pushed == s.pushed + |Flatten(pieces)|
              && s.PutAll(pieces).Free() == s.Free() - |Flatten(pieces)|
    decreases |pieces|
  {
    hide Sink.Put, Sink.Free;
    if pieces != [] {
      var n := |pieces| - 1;
      PutAllGood(s, pieces[..n]);
      FlattenLast(pieces);
      PutGood(s.PutAll(pieces[..n]), pieces[n]);
    }
  }

  lemma PutCutOff(s: Sink, bytes: seq<byte>)
    requires NeverRefuses(s.grants)
    ensures NeverRefuses(s.Put(bytes).grants)
    ensures var k := Min(|bytes|, s.Free());
            && s.Put(bytes).written == s.written + bytes[..k]
            && s.Put(bytes).pushed == s.pushed + k
            && s.Put(bytes).Free() == s.Free() - k
  {
    hide Place, NeverRefuses;
  }

  /** If buffers end only for good, what arrives is the concatenation up to the room there was. */
  lemma {:induction false} PutAllCutOff(s: Sink, pieces: seq<seq<byte>>)
    requires NeverRefuses(s.grants)
    ensures NeverRefuses(s.PutAll(pieces).grants)
    ensures var k := Min(|Flatten(pieces)|, s.Free());
            && s.PutAll(pieces).written == s.written + Flatten(pieces)[..k]
            && s.PutAll(pieces).pushed == s.pushed + k
            && s.PutAll(pieces).Free() == s.Free() - k
    decreases |pieces|
  {
    hide NeverRefuses, Sink.Put, Sink.Free;
    if pieces != [] {
      var n := |pieces| - 1;
      PutAllCutOff(s, pieces[..n]);
      FlattenLast(pieces);
      PutCutOff(s.PutAll(pieces[..n]), pieces[n]);
      PrefixStep(Flatten(pieces[..n]), pieces[n], s.Free());
    }
  }

  lemma PrefixStep(a: seq<byte>, b: seq<byte>, free: nat)
    ensures a[..Min(|a|, free)] + b[..Min(|b|, free - Min(|a|, free))] == (a + b)[..Min(|a + b|, free)]
  {
  }

  /** The part of each piece that arrives, whatever the stream grants and refuses. */
  function Kept(s: Sink, pieces: seq<seq<byte>>): (r: seq<seq<byte>>)
    ensures |r| == |pieces|
    ensures forall i :: 0 <= i < |pieces| ==> r[i] <= pieces[i]
  {
    seq(|pieces|, i requires 0 <= i < |pieces| =>
          pieces[i][..Min(|pieces[i]|, s.PutAll(pieces[..i]).Free())])
  }

  lemma {:induction false} KeptStep(s: Sink, pieces: seq<seq<byte>>)
    requires pieces != []
    ensures var n := |pieces| - 1;
            var kept := pieces[n][..Min(|pieces[n]|, s.PutAll(pieces[..n]).Free())];
            Kept(s, pieces) == Kept(s, pieces[..n]) + [kept]
  {
    hide Sink.PutAll, Sink.Put, Sink.Free;
    assert forall i :: 0 <= i < |pieces| - 1 ==> pieces[..|pieces| - 1][..i] == pieces[..i];
  }

  lemma FlattenAppend(pieces: seq<seq<byte>>, last: seq<byte>)
    ensures Flatten(pieces + [last]) == Flatten(pieces) + last
  {
    FlattenLast(pieces + [last]);
    assert (pieces + [last])[..|pieces|] == pieces;
  }

  /** In general what arrives is the concatenation of a prefix of each piece: as much of it as there is
      room for before the first refusal that its write meets. */
  lemma {:induction false} PutAllKept(s: Sink, pieces: seq<seq<byte>>)
    ensures s.PutAll(pieces).written == s.written + Flatten(Kept(s, pieces))
    ensures s.PutAll(pieces).pushed == s.pushed + |Flatten(Kept(s, pieces))|
    ensures s.PutAll(pieces).good <==> s.good && Kept(s, pieces) == pieces
    decreases |pieces|
  {
    if pieces != [] {
      var n := |pieces| - 1;
      var front := s.PutAll(pieces[..n]);
      var kept := pieces[n][..Min(|pieces[n]|, front.Free())];
      PutAllKept(s, pieces[..n]);
      KeptStep(s, pieces);
      PutKeeps(front, pieces[n]);
      hide Place, Room, Kept, Flatten;
      FlattenAppend(Kept(s, pieces[..n]), kept);
      AppendEqual(Kept(s, pieces[..n]), kept, pieces);
    }
  }

  lemma AppendEqual(u: seq<seq<byte>>, x: seq<byte>, v: seq<seq<byte>>)
    requires v != []
    ensures u + [x] == v <==> u == v[..|v| - 1] && x == v[|v| - 1]
  {
    assert v == v[..|v| - 1] + [v[|v| - 1]];
    assert u == (u + [x])[..|u|] && x == (u + [x])[|u|];
  }

  lemma PutKeeps(s: Sink, piece: seq<byte>)
    ensures var kept := piece[..Min(|piece|, s.Free())];
            && s.Put(piece).written == s.written + kept && s.Put(piece).pushed == s.pushed + |kept|
            && (s.Put(piece).good <==> s.good && kept == piece)
  {
  }

  method WriteItem(out: AmfOutputStream, item: Item)
    requires out.Valid() && item.Valid()
    modifies out, out.stream
    ensures out.Valid() && out.State() == old(out.State()).Put(item.Encoding())
  {
    match item
    case U8(b) => out.PutU8(b);
    case Uint(w, v) => out.PutUint(v, w);
    case Raw(bytes) => out.Putn(bytes);
  }

  /** Any sequence of writes, for every way the stream grants and refuses buffers. */
  method WriteAll(out: AmfOutputStream, items: seq<Item>)
    requires out.Valid() && AllValid(items)
    modifies out, out.stream
    ensures out.Valid() && out.State() == old(out.State()).PutAll(Pieces(items))
  {
    ghost var pieces := Pieces(items);
    for i := 0 to |items|
      invariant out.Valid() && out.State() == old(out.State()).PutAll(pieces[..i])
    {
      assert pieces[..i + 1][..i] == pieces[..i];
      WriteItem(out, items[i]);
    }
    assert pieces[..|items|] == pieces;
  }

  /* ---------------------------------------------------------------- sequences of reads */

  /** Which call reads an item back: all the reader knows beforehand. */
  datatype Kind = KU8 | KUint(w: nat) | KRaw(n: nat)
  {
    predicate Valid()
    {
      KUint? ==> w == 2 || w == 4 || w == 8
    }

    function Size(): nat
    {
      match this
      case KU8 => 1
      case KUint(w) => w
      case KRaw(n) => n
    }
  }

  function KindOf(item: Item): Kind
  {
    match item
    case U8(_) => KU8
    case Uint(w, _) => KUint(w)
    case Raw(bytes) => KRaw(|bytes|)
  }

  function KindsOf(items: seq<Item>): (r: seq<Kind>)
    ensures |r| == |items|
  {
    seq(|items|, i requires 0 <= i < |items| => KindOf(items[i]))
  }

  function TotalSize(kinds: seq<Kind>): nat
  {
    if kinds == [] then 0 else TotalSize(kinds[..|kinds| - 1]) + kinds[|kinds| - 1].Size()
  }

  lemma {:induction false} BytesLimit(s: seq<byte>)
    ensures FromBytes(s) < Limit(|s|)
  {
    if s != [] {
      BytesLimit(s[..|s| - 1]);
    }
  }

  lemma {:induction false} NumberRoundTrip(s: seq<byte>)
    ensures ToBytes(FromBytes(s), |s|) == s
  {
    if s != [] {
      NumberRoundTrip(s[..|s| - 1]);
      assert s[..|s| - 1] + [s[|s| - 1]] == s;
    }
  }

  /** An item is determined by its kind and its encoding. */
  lemma {:induction false} ItemUnique(a: Item, b: Item)
    requires a.Valid() && b.Valid() && KindOf(a) == KindOf(b) && a.Encoding() == b.Encoding()
    ensures a == b
  {
    if a.Uint? {
      BytesRoundTrip(a.v, a.w);
      BytesRoundTrip(b.v, b.w);
    }
  }

  lemma LastItem(items: seq<Item>)
    requires items != []
    ensures var n := |items| - 1;
            && Encodings(items) == Encodings(items[..n]) + items[n].Encoding()
            && KindsOf(items) == KindsOf(items[..n]) + [KindOf(items[n])]
  {
    var n := |items| - 1;
    FlattenLast(Pieces(items));
    assert Pieces(items)[..n] == Pieces(items[..n]);
  }

  lemma {:induction false} SizeOfEncodings(items: seq<Item>)
    ensures |Encodings(items)| == TotalSize(KindsOf(items))
    decreases |items|
  {
    if items != [] {
      var n := |items| - 1;
      SizeOfEncodings(items[..n]);
      LastItem(items);
      assert KindsOf(items)[..n] == KindsOf(items[..n]);
    }
  }

  /** Unique decodability: items are determined by their kinds and the bytes they are written as. */
  lemma {:induction false} UniqueDecoding(a: seq<Item>, b: seq<Item>)
    requires AllValid(a) && AllValid(b) && KindsOf(a) == KindsOf(b) && Encodings(a) == Encodings(b)
    ensures a == b
    decreases |a|
  {
    hide Encodings, KindsOf, KindOf, TotalSize, Item.Encoding, Item.Valid;
    if a != [] {
      var n := |a| - 1;
      LastItem(a);
      LastItem(b);
      assert KindsOf(a[..n]) == KindsOf(a)[..n] == KindsOf(b)[..n] == KindsOf(b[..n]);
      assert KindOf(a[n]) == KindsOf(a)[n] == KindsOf(b)[n] == KindOf(b[n]);
      SizeOfEncodings(a[..n]);
      SizeOfEncodings(b[..n]);
      SplitEqual(Encodings(a[..n]), a[n].Encoding(), Encodings(b[..n]), b[n].Encoding());
      ItemUnique(a[n], b[n]);
      UniqueDecoding(a[..n], b[..n]);
      assert a == a[..n] + [a[n]] && b == b[..n] + [b[n]];
    }
  }

  lemma SplitEqual(u: seq<byte>, v: seq<byte>, u': seq<byte>, v': seq<byte>)
    requires |u| == |u'| && u + v == u' + v'
    ensures u == u' && v == v'
  {
    assert u == (u + v)[..|u|] && v == (u + v)[|u|..];
  }

  lemma NumberFits(bytes: seq<byte>)
    ensures FromBytes(bytes + Zeros(0)) < Limit(|bytes|)
    ensures ToBytes(FromBytes(bytes + Zeros(0)), |bytes|) == bytes
  {
    assert bytes + Zeros(0) == bytes;
    BytesLimit(bytes);
    NumberRoundTrip(bytes);
  }

  /** Reads one item of a kind: the item whose encoding the next bytes are. */
  method ReadItem(input: AmfInputStream, kind: Kind) returns (item: Item)
    requires kind.Valid() && kind.Size() <= |input.Remaining()|
    modifies input, input.stream
    ensures item.Valid() && KindOf(item) == kind
    ensures item.Encoding() == old(input.Remaining())[..kind.Size()]
    ensures input.Remaining() == old(input.Remaining())[kind.Size()..]
    ensures input.popped == old(input.popped) + kind.Size()
  {
    hide FromBytes, ToBytes, Limit, Zeros, Flatten;
    match kind
    case KU8 =>
      var val, _ := input.CutU8(0);
      item := U8(val);
    case KUint(w) =>
      NumberFits(input.Remaining()[..w]);
      var val, _ := input.CutUint(w);
      item := Uint(w, val);
    case KRaw(n) =>
      var out, _ := input.Cutn(n);
      item := Raw(out);
  }

  /** Reads items of given kinds: valid items of those kinds whose encodings are the next bytes, for
      every chunking. */
  method ReadAll(input: AmfInputStream, kinds: seq<Kind>) returns (items: seq<Item>)
    requires forall i :: 0 <= i < |kinds| ==> kinds[i].Valid()
    requires TotalSize(kinds) <= |input.Remaining()|
    modifies input, input.stream
    ensures AllValid(items) && KindsOf(items) == kinds
    ensures Encodings(items) == old(input.Remaining())[..TotalSize(kinds)]
    ensures input.Remaining() == old(input.Remaining())[TotalSize(kinds)..]
    ensures input.popped == old(input.popped) + TotalSize(kinds)
  {
    items := [];
    ghost var flat := input.Remaining();
    assert Decoded(flat, kinds, 0, items, flat) && TotalSize(kinds[..0]) == 0;
    for i := 0 to |kinds|
      invariant Decoded(flat, kinds, i, items, input.Remaining())
      invariant input.popped == old(input.popped) + TotalSize(kinds[..i])
    {
      hide Decoded, TotalSize, Flatten;
      DecodedStep(flat, kinds, i, items, input.Remaining());
      var item := ReadItem(input, kinds[i]);
      items := items + [item];
    }
    assert kinds[..|kinds|] == kinds;
  }

  /** `items` are the first `i` items in `flat`, and `rest` is what follows them. */
  ghost predicate Decoded(flat: seq<byte>, kinds: seq<Kind>, i: nat, items: seq<Item>, rest: seq<byte>)
    requires i <= |kinds|
  {
    var done := TotalSize(kinds[..i]);
    && AllValid(items) && KindsOf(items) == kinds[..i]
    && done <= |flat| && Encodings(items) == flat[..done] && rest == flat[done..]
  }

  lemma {:induction false} DecodedStep(flat: seq<byte>, kinds: seq<Kind>, i: nat, items: seq<Item>, rest: seq<byte>)
    requires i < |kinds| && TotalSize(kinds) <= |flat| && Decoded(flat, kinds, i, items, rest)
    ensures TotalSize(kinds[..i + 1]) == TotalSize(kinds[..i]) + kinds[i].Size()
    ensures kinds[i].Size() <= |rest|
    ensures forall item: Item ::
              item.Valid() && KindOf(item) == kinds[i] && item.Encoding() == rest[..kinds[i].Size()] ==>
              Decoded(flat, kinds, i + 1, items + [item], rest[kinds[i].Size()..])
  {
    TotalSizeStep(kinds, i);
    forall item: Item | item.Valid() && KindOf(item) == kinds[i] && item.Encoding() == rest[..kinds[i].Size()]
      ensures Decoded(flat, kinds, i + 1, items + [item], rest[kinds[i].Size()..])
    {
      ReadStep(flat, TotalSize(kinds[..i]), items, kinds, i, item);
    }
  }

  lemma ReadStep(flat: seq<byte>, done: nat, items: seq<Item>, kinds: seq<Kind>, i: nat, item: Item)
    requires i < |kinds| && done + kinds[i].Size() <= |flat|
    requires KindsOf(items) == kinds[..i] && Encodings(items) == flat[..done]
    requires KindOf(item) == kinds[i] && item.Encoding() == flat[done..][..kinds[i].Size()]
    ensures KindsOf(items + [item]) == kinds[..i + 1]
    ensures Encodings(items + [item]) == flat[..done + kinds[i].Size()]
    ensures flat[done..][kinds[i].Size()..] == flat[done + kinds[i].Size()..]
  {
    ItemsStep(items, item);
    assert flat[done..][..kinds[i].Size()] == flat[done..done + kinds[i].Size()];
  }

  lemma {:induction false} TotalSizeStep(kinds: seq<Kind>, i: nat)
    requires i < |kinds|
    ensures TotalSize(kinds[..i + 1]) == TotalSize(kinds[..i]) + kinds[i].Size() <= TotalSize(kinds)
    decreases |kinds| - i
  {
    assert kinds[..i + 1][..i] == kinds[..i];
    if i + 1 == |kinds| {
      assert kinds[..i + 1] == kinds;
    } else {
      TotalSizeStep(kinds, i + 1);
    }
  }

  lemma ItemsStep(items: seq<Item>, item: Item)
    ensures Encodings(items + [item]) == Encodings(items) + item.Encoding()
    ensures KindsOf(items + [item]) == KindsOf(items) + [KindOf(item)]
  {
    LastItem(items + [item]);
    assert (items + [item])[..|items|] == items;
  }

  /** A whole writing session: it is good exactly when there is room for everything, and then the stream
      holds exactly the encodings. */
  method WriteSession(items: seq<Item>, grants: seq<Grant>) returns (ok: bool, bytes: seq<byte>)
    requires AllValid(items)
    ensures ok <==> |Encodings(items)| <= Room(grants)
    ensures ok ==> bytes == Encodings(items)
  {
    hide Sink.PutAll, Sink.Put, Flatten, Pieces, Place, AllValid, Room;
    var sink := new ZeroCopyOutput(grants);
    var out := new AmfOutputStream(sink);
    PutAllGood(out.State(), Pieces(items));
    WriteAll(out, items);
    out.Done();
    ok, bytes := out.good, sink.space;
    assert [] + Encodings(items) == Encodings(items);
  }

  /** A whole reading session, given the kinds and the chunks alone. */
  method ReadSession(kinds: seq<Kind>, chunks: seq<seq<byte>>) returns (items: seq<Item>)
    requires forall i :: 0 <= i < |kinds| ==> kinds[i].Valid()
    requires TotalSize(kinds) <= |Flatten(chunks)|
    ensures AllValid(items) && KindsOf(items) == kinds
    ensures Encodings(items) == Flatten(chunks)[..TotalSize(kinds)]
  {
    var source := new ZeroCopyInput(chunks);
    var input := new AmfInputStream(source);
    items := ReadAll(input, kinds);
  }

  /** Write/read round trip: for every granting and refusing of output buffers and every chunking of the
      input, the writes succeed exactly when there is room, and then a reader that is given the kinds
      alone reads the same items back. */
  method RoundTrip(items: seq<Item>, grants: seq<Grant>, rechunk: seq<byte> -> seq<seq<byte>>)
      returns (ok: bool, got: seq<Item>)
    requires AllValid(items)
    requires forall s :: Flatten(rechunk(s)) == s
    ensures ok <==> |Encodings(items)| <= Room(grants)
    ensures ok ==> got == items
  {
    var bytes;
    ok, bytes := WriteSession(items, grants);
    got := [];
    if ok {
      SizeOfEncodings(items);
      got := ReadSession(KindsOf(items), rechunk(bytes));
      assert bytes[..|bytes|] == bytes;
      UniqueDecoding(got, items);
    }
  }
}
