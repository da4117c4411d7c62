/** Message framing (src/network/message.hpp).

    A message is a header {id, size} and a body of bytes. Values are appended
    to the end of the body and consumed from the end of the body, so the body
    behaves as a stack of byte strings. A value of the application's
    `DataType` is modelled by its raw bytes: a byte string whose length is
    `sizeof(DataType)`. */
module Messages {
  import opened Common

  datatype Header<T> = Header(id: T, size: uint16)

  /** `message<T>`: copied by value wherever the transport stores it. */
  datatype Message<T> = Message(header: Header<T>, body: seq<byte>)

  /** `owned_message<T>`: a message plus a handle on the connection that
      received it (absent on the client side). The handle type `O` is the
      connection class, which is declared in a later module. */
  datatype Owned<T, O> = Owned(msg: Message<T>, owner: Option<O>)

  /** The header field `size` records the body length, as far as a 16-bit
      field can: operator<< and operator>> store a `size_t` into it. */
  predicate Consistent<T>(m: Message<T>)
  {
    m.header.size as int == |m.body| % 0x1_0000
  }

  /** A default-constructed message: `header{}` value-initialises the tag
      (to `id`, which stands for `T{}`) and the size to 0; the body is empty. */
  function Empty<T>(id: T): (m: Message<T>)
    ensures m.header.id == id && m.header.size == 0 && m.body == []
    ensures Consistent(m)
  {
    Message(Header(id, 0), [])
  }

  /** `message::size()`: the body size as the header records it. */
  function Size<T>(m: Message<T>): (n: nat)
    ensures n == m.header.size as nat && n < 0x1_0000
    ensures Consistent(m) ==> n == |m.body| % 0x1_0000
  {
    m.header.size as nat
  }

  /** `std::vector<uint8_t>::resize(n)`: keeps the first `n` bytes, or pads
      with zero bytes up to `n`. */
  function Resize(s: seq<byte>, n: nat): (r: seq<byte>)
    ensures |r| == n
    ensures n <= |s| ==> r == s[..n]
    ensures |s| <= n ==> r[..|s|] == s && forall k :: |s| <= k < n ==> r[k] == 0
  {
    if n <= |s| then s[..n] else s + seq(n - |s|, _ => 0)
  }

  /** The message after operator<< has appended the raw bytes `data`. */
  function Appended<T>(m: Message<T>, data: seq<byte>): (r: Message<T>)
    ensures |r.body| == |m.body| + |data|
    ensures r.body[..|m.body|] == m.body && r.body[|m.body|..] == data
    ensures r.header.id == m.header.id
    ensures Consistent(r)
    ensures |r.body| < 0x1_0000 ==> Size(r) == |r.body|
  {
    var body := m.body + data;
    Message(m.header.(size := Truncate16(|body|)), body)
  }

  /** The last `n` bytes of the body: what operator>> copies out. */
  function Top<T>(m: Message<T>, n: nat): (data: seq<byte>)
    requires n <= |m.body|
    ensures |data| == n
    ensures m.body == m.body[..|m.body| - n] + data
  {
    m.body[|m.body| - n..]
  }

  /** The message after operator>> has removed the last `n` bytes. */
  function Popped<T>(m: Message<T>, n: nat): (r: Message<T>)
    requires n <= |m.body|
    ensures |r.body| == |m.body| - n
    ensures m.body == r.body + Top(m, n)
    ensures r.header.id == m.header.id
    ensures Consistent(r)
  {
    var i := |m.body| - n;
    Message(m.header.(size := Truncate16(i)), m.body[..i])
  }

  /** `operator<<(message, data)`: grows the body by `|data|` bytes, copies
      the value's bytes into the new space and stores the new body length
      (modulo 2^16) into the header. */
  method Append<T>(m: Message<T>, data: seq<byte>) returns (r: Message<T>)
    ensures r == Appended(m, data)
  {
    var i := |m.body|;
    var body := Resize(m.body, i + |data|);
    body := body[..i] + data;
    r := Message(m.header.(size := Truncate16(|body|)), body);
  }

  /** `operator>>(message, data)`: the body must hold at least `n` bytes
      (otherwise the `size_t` subtraction underflows); copies out the last
      `n` bytes, shrinks the body and stores the new length into the header. */
  method Consume<T>(m: Message<T>, n: nat) returns (r: Message<T>, data: seq<byte>)
    requires n <= |m.body|
    ensures data == Top(m, n) && r == Popped(m, n)
  {
    var i := |m.body| - n;
    data := m.body[i..];
    var body := Resize(m.body, i);
    r := Message(m.header.(size := Truncate16(i)), body);
  }

  /** On a consistent message with a body of fewer than 2^16 bytes, `size()`
      is the body length. */
  lemma SizeIsBodyLength<T>(m: Message<T>)
    requires Consistent(m) && |m.body| < 0x1_0000
    ensures Size(m) == |m.body|
  {
  }

  /** `size()` reads the header only: a body of 2^16 bytes or more is
      reported modulo 2^16. */
  lemma SizeWrapsAround<T>(m: Message<T>, data: seq<byte>)
    requires |m.body| + |data| == 0x1_0000
    ensures Size(Appended(m, data)) == 0 && |Appended(m, data).body| == 0x1_0000
  {
  }

  /** Consuming right after appending returns the appended bytes and restores
      the message, header included. */
  lemma ConsumeAfterAppend<T>(m: Message<T>, data: seq<byte>)
    requires Consistent(m)
    ensures |data| <= |Appended(m, data).body|
    ensures Top(Appended(m, data), |data|) == data
    ensures Popped(Appended(m, data), |data|) == m
  {
  }

  /** The message after appending each byte string of `ds`, first to last. */
  function AppendAll<T>(m: Message<T>, ds: seq<seq<byte>>): (r: Message<T>)
    ensures r.header.id == m.header.id
    ensures Consistent(m) ==> Consistent(r)
  {
    if ds == [] then m else Appended(AppendAll(m, ds[..|ds| - 1]), ds[|ds| - 1])
  }

  /** Consumes byte strings of the widths `ws`, in that order; the result is
      the remaining message and the strings consumed, in the order consumed.
      `None` when the body runs short (the underflow of operator>>). */
  function ConsumeAll<T>(m: Message<T>, ws: seq<nat>): Option<(Message<T>, seq<seq<byte>>)>
    decreases |ws|
  {
    if ws == [] then Some((m, []))
    else if |m.body| < ws[0] then None
    else match ConsumeAll(Popped(m, ws[0]), ws[1..])
      case None => None
      case Some((rest, out)) => Some((rest, [Top(m, ws[0])] + out))
  }

  function Widths(ds: seq<seq<byte>>): (ws: seq<nat>)
    ensures |ws| == |ds| && forall k :: 0 <= k < |ds| ==> ws[k] == |ds[k]|
  {
    if ds == [] then [] else Widths(ds[..|ds| - 1]) + [|ds[|ds| - 1]|]
  }

  function Reverse<X>(s: seq<X>): (r: seq<X>)
    ensures |r| == |s| && forall k :: 0 <= k < |s| ==> r[k] == s[|s| - 1 - k]
  {
    if s == [] then [] else [s[|s| - 1]] + Reverse(s[..|s| - 1])
  }

  /** Values come back in LIFO order: appending v1 .. vk and then consuming
      k values of the matching widths, last first, yields vk .. v1 and leaves
      the original message. */
  lemma {:induction false} LastInFirstOut<T>(m: Message<T>, ds: seq<seq<byte>>)
    requires Consistent(m)
    ensures ConsumeAll(AppendAll(m, ds), Reverse(Widths(ds))) == Some((m, Reverse(ds)))
  {
    if ds != [] {
      var front, d := ds[..|ds| - 1], ds[|ds| - 1];
      var g := AppendAll(m, front);
      var ws := Reverse(Widths(ds));
      assert Widths(ds) == Widths(front) + [|d|];
      assert ws == [|d|] + Reverse(Widths(front));
      ConsumeAfterAppend(g, d);
      LastInFirstOut(m, front);
      assert ws[1..] == Reverse(Widths(front));
      assert Reverse(ds) == [d] + Reverse(front);
    }
  }

  /** A fixed-layout `DataType`: its `sizeof`, and the byte copies that
      `memcpy` makes in each direction. */
  datatype Layout<!V> = Layout(width: nat, encode: V -> seq<byte>, decode: seq<byte> -> V)

  /** A standard-layout type: every value has `width` bytes, and copying the
      bytes back gives the value. */
  ghost predicate Faithful<V(!new)>(L: Layout<V>)
  {
    forall v :: |L.encode(v)| == L.width && L.decode(L.encode(v)) == v
  }

  /** Typed round trip: `m << v` followed by `>> v'` sets `v'` to `v` and
      restores `m`. */
  lemma ValueRoundTrip<T, V(!new)>(m: Message<T>, L: Layout<V>, v: V)
    requires Consistent(m) && Faithful(L)
    ensures L.width <= |Appended(m, L.encode(v)).body|
    ensures L.decode(Top(Appended(m, L.encode(v)), L.width)) == v
    ensures Popped(Appended(m, L.encode(v)), L.width) == m
  {
  }
}
