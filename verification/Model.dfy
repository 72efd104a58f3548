/** Values every component shares: flow keys, buckets, batches and the batch
    identifier (src/model.rs). */
module Wrappers {
  datatype Option<+T> = None | Some(value: T)
  datatype Result<+T, +E> = Ok(value: T) | Err(error: E) {
    predicate IsFailure() { Err? }

    function PropagateFailure<U>(): Result<U, E>
      requires Err?
    {
      Err(error)
    }

    function Extract(): T
      requires Ok?
    {
      value
    }
  }
}

/** Facts about sequences, stated once for any element type. */
module Sequences {
  lemma ConcatHead<T>(a: seq<T>, b: seq<T>)
    requires a != []
    ensures (a + b)[0] == a[0] && (a + b)[1..] == a[1..] + b
  {
  }

  lemma TailSlices<T>(a: seq<T>, k: nat)
    requires 1 <= k <= |a|
    ensures a[1..][k - 1..] == a[k..] && a[..k] == [a[0]] + a[1..][..k - 1]
  {
  }

  lemma SplitAround<T>(a: seq<T>, i: nat)
    requires i < |a|
    ensures a == a[..i] + ([a[i]] + a[i + 1..])
    ensures a[0..] == a && a[..|a|] == a
    ensures forall x :: x in a <==> x in a[..i] || x == a[i] || x in a[i + 1..]
  {
    assert a == a[..i] + ([a[i]] + a[i + 1..]);
  }

  /** A sequence without its element at `i`. */
  function Without<T>(a: seq<T>, i: nat): seq<T>
    requires i < |a|
  {
    a[..i] + a[i + 1..]
  }

  lemma WithoutElements<T>(a: seq<T>, i: nat)
    requires i < |a|
    ensures |Without(a, i)| == |a| - 1
    ensures forall j | 0 <= j < |a| - 1 :: Without(a, i)[j] == a[if j < i then j else j + 1]
    ensures forall j | 0 <= j < |a| && j != i :: a[j] in Without(a, i)
  {
    forall j | 0 <= j < |a| && j != i ensures a[j] in Without(a, i) {
      assert a[j] == Without(a, i)[if j < i then j else j - 1];
    }
  }

  lemma Associative<T>(a: seq<T>, b: seq<T>, c: seq<T>)
    ensures a + b + c == a + (b + c)
  {
  }

  lemma HeadTail<T>(a: seq<T>)
    requires a != []
    ensures a == [a[0]] + a[1..]
    ensures forall x :: x in a <==> x == a[0] || x in a[1..]
  {
    assert a == [a[0]] + a[1..];
  }
}

module Model {
  import opened Wrappers

  const I64_MAX: nat := 0x7fff_ffff_ffff_ffff

  /** SQLite integers are signed; a larger unsigned value is refused. */
  predicate Fits(n: nat) { n <= I64_MAX }

  predicate OptionFits(o: Option<nat>) { o.Some? ==> Fits(o.value) }

  function SaturatingSub(a: nat, b: nat): nat { if a < b then 0 else a - b }

  /** What is older than this has expired. */
  function Cutoff(now: nat, maxAgeSeconds: nat): nat { SaturatingSub(now, maxAgeSeconds) }

  /** A time before the cutoff is one more than the maximum age ago. */
  lemma ExpiredMeansOlder(createdAt: nat, now: nat, maxAgeSeconds: nat)
    ensures createdAt < Cutoff(now, maxAgeSeconds) <==> createdAt + maxAgeSeconds < now
  {
  }

  function Min(a: nat, b: nat): nat { if a <= b then a else b }

  function Max(a: nat, b: nat): nat { if a <= b then b else a }

  type Byte = b: nat | b < 0x100
  type Port = p: nat | p < 0x1_0000
  type Octets4 = s: seq<Byte> | |s| == 4 witness [0, 0, 0, 0]
  type Octets16 = s: seq<Byte> | |s| == 16 witness [0, 0, 0, 0, 0, 0, 0, 0, 0, 0, 0, 0, 0, 0, 0, 0]

  datatype Direction = Ingress | Egress | Internal | Unknown
  datatype TransportProtocol = Tcp | Udp | Icmp | Other(number: Byte)
  datatype IpAddr = V4(v4: Octets4) | V6(v6: Octets16)

  function ProtocolFrom(value: Byte): TransportProtocol {
    match value
    case 6 => Tcp
    case 17 => Udp
    case 1 => Icmp
    case 58 => Icmp
    case number => Other(number)
  }

  datatype FlowKey = FlowKey(
    capturePoint: string,
    direction: Direction,
    protocol: TransportProtocol,
    sourceIp: IpAddr,
    destinationIp: IpAddr,
    sourcePort: Option<Port>,
    destinationPort: Option<Port>)

  datatype FlowBucket = FlowBucket(bucketStart: nat, key: FlowKey, packets: nat, bytes: nat)

  datatype PacketMeta = PacketMeta(timestamp: nat, wireBytes: nat, key: FlowKey)

  datatype CaptureDiagnostics = CaptureDiagnostics(received: nat, dropped: nat, interfaceDropped: nat, parseErrors: nat)

  const SCHEMA_VERSION: nat := 1

  datatype BatchBody = BatchBody(
    schemaVersion: nat,
    nodeId: string,
    bootId: string,
    seqNo: nat,
    createdAt: nat,
    buckets: seq<FlowBucket>,
    diagnostics: CaptureDiagnostics)

  datatype BatchEnvelope = BatchEnvelope(batchId: string, checksum: string, body: BatchBody)

  /** A digest in hexadecimal: 64 characters. */
  type Digest = s: string | |s| == 64
    witness "0000000000000000000000000000000000000000000000000000000000000000"

  /** The two opaque computations on a batch: the digest of its body and the
      length of its serialised envelope. Nothing is assumed of either. */
  datatype Codec = Codec(checksum: BatchBody -> Digest, size: BatchEnvelope -> nat)

  function NewEnvelope(codec: Codec, body: BatchBody): BatchEnvelope {
    var checksum := codec.checksum(body);
    BatchEnvelope(BatchId(body.nodeId, body.bootId, body.seqNo, checksum), checksum, body)
  }

  predicate HasValidChecksum(codec: Codec, e: BatchEnvelope) {
    codec.checksum(e.body) == e.checksum
  }

  // ---------------------------------------------------------------- batch ids

  predicate IsDigit(c: char) { '0' <= c <= '9' }

  function Decimal(n: nat): (s: string)
    ensures |s| >= 1 && forall c | c in s :: IsDigit(c)
  {
    var last := ['0' + (n % 10) as char];
    if n < 10 then last else Decimal(n / 10) + last
  }

  function DigitValue(c: char): nat
    requires IsDigit(c)
  {
    (c - '0') as nat
  }

  function ParseDecimal(s: string): nat
    requires forall c | c in s :: IsDigit(c)
  {
    if s == [] then 0
    else (
      var last := s[|s| - 1];
      assert last in s;
      ParseDecimal(s[..|s| - 1]) * 10 + DigitValue(last))
  }

  function BatchId(nodeId: string, bootId: string, seqNo: nat, checksum: Digest): string {
    nodeId + ":" + bootId + ":" + Decimal(seqNo) + ":" + checksum[..16]
  }

  /** The longest run of digits at the end of `s`. */
  function DigitSuffix(s: string): (r: string)
    ensures forall c | c in r :: IsDigit(c)
  {
    if s != [] && IsDigit(s[|s| - 1]) then DigitSuffix(s[..|s| - 1]) + [s[|s| - 1]] else []
  }

  /** Reads the sequence number back from the right-hand end of a batch id. */
  function DecodeSeq(id: string): nat
    requires |id| >= 17
  {
    ParseDecimal(DigitSuffix(id[..|id| - 17]))
  }

  lemma {:induction false} ParseOfDecimal(n: nat)
    ensures ParseDecimal(Decimal(n)) == n
  {
    if n >= 10 {
      ParseOfDecimal(n / 10);
      assert Decimal(n)[..|Decimal(n)| - 1] == Decimal(n / 10);
    } else {
      assert Decimal(n)[..0] == [];
    }
  }

  lemma {:induction false} DigitSuffixStopsAtColon(prefix: string, digits: string)
    requires forall c | c in digits :: IsDigit(c)
    ensures DigitSuffix(prefix + ":" + digits) == digits
  {
    var s := prefix + ":" + digits;
    if digits != [] {
      var shorter := digits[..|digits| - 1];
      DigitSuffixStopsAtColon(prefix, shorter);
      assert s[..|s| - 1] == prefix + ":" + shorter;
    }
  }

  /** Whatever the node and boot ids contain, colons included, the sequence
      number can be read back. */
  lemma BatchIdDecodes(nodeId: string, bootId: string, seqNo: nat, checksum: Digest)
    ensures |BatchId(nodeId, bootId, seqNo, checksum)| >= 17
    ensures DecodeSeq(BatchId(nodeId, bootId, seqNo, checksum)) == seqNo
  {
    var id := BatchId(nodeId, bootId, seqNo, checksum);
    var digits := Decimal(seqNo);
    assert id[..|id| - 17] == (nodeId + ":" + bootId) + ":" + digits;
    DigitSuffixStopsAtColon(nodeId + ":" + bootId, digits);
    ParseOfDecimal(seqNo);
  }

  /** Exactly when two batch ids coincide. */
  lemma BatchIdsCoincide(n1: string, b1: string, s1: nat, c1: Digest, n2: string, b2: string, s2: nat, c2: Digest)
    ensures BatchId(n1, b1, s1, c1) == BatchId(n2, b2, s2, c2)
       <==> n1 + ":" + b1 == n2 + ":" + b2 && s1 == s2 && c1[..16] == c2[..16]
  {
    var id1, id2 := BatchId(n1, b1, s1, c1), BatchId(n2, b2, s2, c2);
    assert id1 == (n1 + ":" + b1) + (":" + Decimal(s1) + ":" + c1[..16]);
    assert id2 == (n2 + ":" + b2) + (":" + Decimal(s2) + ":" + c2[..16]);
    if id1 == id2 {
      BatchIdDecodes(n1, b1, s1, c1);
      BatchIdDecodes(n2, b2, s2, c2);
      assert id1[|id1| - 16..] == c1[..16];
      assert id2[|id2| - 16..] == c2[..16];
      var tail := |":" + Decimal(s1) + ":" + c1[..16]|;
      assert id1[..|id1| - tail] == n1 + ":" + b1;
      assert id2[..|id2| - tail] == n2 + ":" + b2;
    }
  }

  /** The id does not tell where the node id ends: of two batches whose node and
      boot ids join to the same text, only the digest prefix is left to tell the
      ids apart. */
  lemma BatchIdForgetsNodeBoundary(codec: Codec, a: BatchBody, b: BatchBody)
    requires a.nodeId + ":" + a.bootId == b.nodeId + ":" + b.bootId && a.seqNo == b.seqNo
    ensures NewEnvelope(codec, a).batchId == NewEnvelope(codec, b).batchId
       <==> codec.checksum(a)[..16] == codec.checksum(b)[..16]
  {
    BatchIdsCoincide(a.nodeId, a.bootId, a.seqNo, codec.checksum(a), b.nodeId, b.bootId, b.seqNo, codec.checksum(b));
  }

  /** Node ids without colons restore the boundary. */
  lemma BatchIdIdentifiesBatch(n1: string, b1: string, s1: nat, c1: Digest, n2: string, b2: string, s2: nat, c2: Digest)
    requires ':' !in n1 && ':' !in n2
    requires BatchId(n1, b1, s1, c1) == BatchId(n2, b2, s2, c2)
    ensures n1 == n2 && b1 == b2 && s1 == s2
  {
    BatchIdsCoincide(n1, b1, s1, c1, n2, b2, s2, c2);
    var t1, t2 := n1 + ":" + b1, n2 + ":" + b2;
    assert t1[|n1|] == ':' && t2[|n2|] == ':';
    assert forall i | 0 <= i < |n1| :: t1[i] == n1[i] && t1[i] in n1;
    assert forall i | 0 <= i < |n2| :: t2[i] == n2[i] && t2[i] in n2;
    assert t1[..|n1|] == n1 && t2[..|n2|] == n2;
    assert t1[|n1| + 1..] == b1 && t2[|n2| + 1..] == b2;
  }
}
