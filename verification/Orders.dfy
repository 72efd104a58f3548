/** The derived order of (bucket, flow key) pairs.

    A derived Rust order compares fields from left to right, an enum by variant
    and then by payload, strings and octets element by element. Each field is
    written as its variant number followed by its payload, so that one
    lexicographic comparison of such columns is the derived order
    (src/model.rs:8-46). */
module Orders {
  import opened Wrappers
  import opened Model

  type Column = seq<nat>
  type Code = seq<Column>

  predicate ColumnBefore(a: Column, b: Column) {
    if b == [] then false
    else if a == [] then true
    else if a[0] != b[0] then a[0] < b[0]
    else ColumnBefore(a[1..], b[1..])
  }

  predicate Before(a: Code, b: Code) {
    if b == [] then false
    else if a == [] then true
    else if a[0] != b[0] then ColumnBefore(a[0], b[0])
    else Before(a[1..], b[1..])
  }

  lemma {:induction false} ColumnTotal(a: Column, b: Column)
    ensures a == b || ColumnBefore(a, b) || ColumnBefore(b, a)
    ensures !(ColumnBefore(a, b) && ColumnBefore(b, a)) && !ColumnBefore(a, a)
  {
    if a != [] && b != [] && a[0] == b[0] {
      ColumnTotal(a[1..], b[1..]);
      assert a == [a[0]] + a[1..] && b == [b[0]] + b[1..];
    }
    if a != [] {
      ColumnTotal(a[1..], a[1..]);
    }
  }

  lemma {:induction false} ColumnTransitive(a: Column, b: Column, c: Column)
    requires ColumnBefore(a, b) && ColumnBefore(b, c)
    ensures ColumnBefore(a, c)
  {
    if a != [] && a[0] == b[0] && b[0] == c[0] {
      ColumnTransitive(a[1..], b[1..], c[1..]);
    }
  }

  lemma {:induction false} Total(a: Code, b: Code)
    ensures a == b || Before(a, b) || Before(b, a)
    ensures !(Before(a, b) && Before(b, a)) && !Before(a, a)
  {
    if a != [] && b != [] {
      ColumnTotal(a[0], b[0]);
      if a[0] == b[0] {
        Total(a[1..], b[1..]);
        assert a == [a[0]] + a[1..] && b == [b[0]] + b[1..];
      }
    }
    if a != [] {
      Total(a[1..], a[1..]);
    }
  }

  lemma {:induction false} Transitive(a: Code, b: Code, c: Code)
    requires Before(a, b) && Before(b, c)
    ensures Before(a, c)
  {
    if a != [] {
      if a[0] == b[0] && b[0] == c[0] {
        Transitive(a[1..], b[1..], c[1..]);
      } else if a[0] != b[0] && b[0] != c[0] {
        ColumnTransitive(a[0], b[0], c[0]);
        ColumnTotal(a[0], c[0]);
      }
    }
  }

  // ------------------------------------------------------------------ columns

  function Chars(s: string): Column { seq(|s|, i requires 0 <= i < |s| => s[i] as nat) }

  function DirectionColumn(d: Direction): Column {
    match d
    case Ingress => [0]
    case Egress => [1]
    case Internal => [2]
    case Unknown => [3]
  }

  function ProtocolColumn(p: TransportProtocol): Column {
    match p
    case Tcp => [0]
    case Udp => [1]
    case Icmp => [2]
    case Other(number) => [3, number]
  }

  function AddressColumn(a: IpAddr): Column {
    match a
    case V4(octets) => [0] + octets
    case V6(octets) => [1] + octets
  }

  function PortColumn(p: Option<Port>): Column {
    match p
    case None => [0]
    case Some(port) => [1, port]
  }

  function KeyCode(k: FlowKey): Code {
    [Chars(k.capturePoint), DirectionColumn(k.direction), ProtocolColumn(k.protocol), AddressColumn(k.sourceIp),
     AddressColumn(k.destinationIp), PortColumn(k.sourcePort), PortColumn(k.destinationPort)]
  }

  function EntryCode(bucketStart: nat, k: FlowKey): Code { [[bucketStart]] + KeyCode(k) }

  lemma CharsInjective(s: string, t: string)
    requires Chars(s) == Chars(t)
    ensures s == t
  {
    assert |s| == |Chars(s)| == |Chars(t)| == |t|;
    assert forall i | 0 <= i < |s| :: s[i] as nat == Chars(s)[i] == Chars(t)[i] == t[i] as nat;
  }

  lemma AddressColumnInjective(a: IpAddr, b: IpAddr)
    requires AddressColumn(a) == AddressColumn(b)
    ensures a == b
  {
    assert AddressColumn(a)[0] == AddressColumn(b)[0];
    assert AddressColumn(a)[1..] == AddressColumn(b)[1..];
  }

  lemma ScalarColumnsInjective(k: FlowKey, l: FlowKey)
    requires DirectionColumn(k.direction) == DirectionColumn(l.direction)
    requires ProtocolColumn(k.protocol) == ProtocolColumn(l.protocol)
    requires PortColumn(k.sourcePort) == PortColumn(l.sourcePort)
    requires PortColumn(k.destinationPort) == PortColumn(l.destinationPort)
    ensures k.direction == l.direction && k.protocol == l.protocol
    ensures k.sourcePort == l.sourcePort && k.destinationPort == l.destinationPort
  {
    assert DirectionColumn(k.direction)[0] == DirectionColumn(l.direction)[0];
    assert ProtocolColumn(k.protocol)[0] == ProtocolColumn(l.protocol)[0];
    if k.protocol.Other? { assert ProtocolColumn(k.protocol)[1] == ProtocolColumn(l.protocol)[1]; }
    assert PortColumn(k.sourcePort)[0] == PortColumn(l.sourcePort)[0];
    if k.sourcePort.Some? { assert PortColumn(k.sourcePort)[1] == PortColumn(l.sourcePort)[1]; }
    assert PortColumn(k.destinationPort)[0] == PortColumn(l.destinationPort)[0];
    if k.destinationPort.Some? { assert PortColumn(k.destinationPort)[1] == PortColumn(l.destinationPort)[1]; }
  }

  /** The order is antisymmetric on keys, not only on their codes. */
  lemma EntryCodeInjective(b: nat, k: FlowKey, c: nat, l: FlowKey)
    requires EntryCode(b, k) == EntryCode(c, l)
    ensures b == c && k == l
  {
    var x, y := EntryCode(b, k), EntryCode(c, l);
    assert x[0] == y[0] && x[0][0] == b && y[0][0] == c;
    assert KeyCode(k) == x[1..] && KeyCode(l) == y[1..];
    var u, v := KeyCode(k), KeyCode(l);
    assert u[0] == v[0] && u[1] == v[1] && u[2] == v[2] && u[3] == v[3] && u[4] == v[4] && u[5] == v[5] && u[6] == v[6];
    CharsInjective(k.capturePoint, l.capturePoint);
    AddressColumnInjective(k.sourceIp, l.sourceIp);
    AddressColumnInjective(k.destinationIp, l.destinationIp);
    ScalarColumnsInjective(k, l);
  }

  // ------------------------------------------------------------ derived order

  /** Element by element: at the first difference `a` is smaller or has ended. */
  ghost predicate SmallerAtFirst(a: seq<nat>, b: seq<nat>) {
    exists n: nat :: n <= |a| && n < |b| && a[..n] == b[..n] && (n == |a| || a[n] < b[n])
  }

  ghost predicate TextBefore(s: string, t: string) {
    exists n: nat :: n <= |s| && n < |t| && s[..n] == t[..n] && (n == |s| || s[n] < t[n])
  }

  /** The order of the variants as they are declared. */
  function DirectionRank(d: Direction): nat {
       if d.Ingress? then 0 else if d.Egress? then 1 else if d.Internal? then 2 else 3 }

  function ProtocolRank(p: TransportProtocol): nat {
       if p.Tcp? then 0 else if p.Udp? then 1 else if p.Icmp? then 2 else 3 }

  predicate ProtocolBefore(p: TransportProtocol, q: TransportProtocol) {
    if p.Other? && q.Other? then p.number < q.number else ProtocolRank(p) < ProtocolRank(q)
  }

  ghost predicate AddressBefore(a: IpAddr, b: IpAddr) {
    match (a, b)
    case (V4(x), V4(y)) => SmallerAtFirst(x, y)
    case (V6(x), V6(y)) => SmallerAtFirst(x, y)
    case (V4(_), V6(_)) => true
    case (V6(_), V4(_)) => false
  }

  predicate PortBefore(p: Option<Port>, q: Option<Port>) { q.Some? && (p.None? || p.value < q.value) }

  /** The derived order of keys: the first field that differs decides. */
  ghost predicate KeyBefore(k: FlowKey, l: FlowKey) {
    if k.capturePoint != l.capturePoint then TextBefore(k.capturePoint, l.capturePoint)
    else if k.direction != l.direction then DirectionRank(k.direction) < DirectionRank(l.direction)
    else if k.protocol != l.protocol then ProtocolBefore(k.protocol, l.protocol)
    else if k.sourceIp != l.sourceIp then AddressBefore(k.sourceIp, l.sourceIp)
    else if k.destinationIp != l.destinationIp then AddressBefore(k.destinationIp, l.destinationIp)
    else if k.sourcePort != l.sourcePort then PortBefore(k.sourcePort, l.sourcePort)
    else k.destinationPort != l.destinationPort && PortBefore(k.destinationPort, l.destinationPort)
  }

  lemma {:induction false} ColumnBeforeExactly(a: Column, b: Column)
    ensures ColumnBefore(a, b) <==> SmallerAtFirst(a, b)
  {
    assert forall n: nat | 0 < n <= |a| && n <= |b| && a[..n] == b[..n] :: a[..n][0] == b[..n][0];
    if a != [] && b != [] && a[0] == b[0] {
      ColumnBeforeExactly(a[1..], b[1..]);
      if n: nat :| n <= |a| && n < |b| && a[..n] == b[..n] && (n == |a| || a[n] < b[n]) {
        assert n > 0;
        assert a[1..][..n - 1] == a[..n][1..] && b[1..][..n - 1] == b[..n][1..];
        assert n - 1 == |a[1..]| || a[1..][n - 1] < b[1..][n - 1];
      }
      var x, y := a[1..], b[1..];
      if n: nat :| n <= |x| && n < |y| && x[..n] == y[..n] && (n == |x| || x[n] < y[n]) {
        assert a[..n + 1] == [a[0]] + a[1..][..n] && b[..n + 1] == [b[0]] + b[1..][..n];
        assert n + 1 == |a| || a[n + 1] < b[n + 1];
      }
    } else if b != [] {
      assert a[..0] == b[..0];
    }
  }

  lemma CharsBefore(s: string, t: string)
    ensures ColumnBefore(Chars(s), Chars(t)) <==> TextBefore(s, t)
  {
    ColumnBeforeExactly(Chars(s), Chars(t));
    var a, b := Chars(s), Chars(t);
    if n: nat :| n <= |a| && n < |b| && a[..n] == b[..n] && (n == |a| || a[n] < b[n]) {
      forall i | 0 <= i < n ensures s[i] == t[i] { assert a[..n][i] == b[..n][i]; }
      assert s[..n] == t[..n];
    }
    if n: nat :| n <= |s| && n < |t| && s[..n] == t[..n] && (n == |s| || s[n] < t[n]) {
      forall i | 0 <= i < n ensures a[i] == b[i] { assert s[..n][i] == t[..n][i]; }
      assert a[..n] == b[..n];
    }
  }

  lemma ShortColumns(x: nat, y: nat, p: nat, q: nat)
    ensures ColumnBefore([x], [y]) <==> x < y
    ensures ColumnBefore([x, p], [y, q]) <==> x < y || (x == y && p < q)
    ensures ColumnBefore([x], [y, q]) <==> x <= y
    ensures ColumnBefore([x, p], [y]) <==> x < y
  {
    assert [x][1..] == [] && [y][1..] == [] && [x, p][1..] == [p] && [y, q][1..] == [q];
    assert [p][1..] == [] && [q][1..] == [];
  }

  lemma ScalarsBefore(k: FlowKey, l: FlowKey)
    ensures ColumnBefore(DirectionColumn(k.direction), DirectionColumn(l.direction))
       <==> DirectionRank(k.direction) < DirectionRank(l.direction)
    ensures ColumnBefore(ProtocolColumn(k.protocol), ProtocolColumn(l.protocol))
       <==> ProtocolBefore(k.protocol, l.protocol)
  {
    hide ColumnBefore;
    ShortColumns(DirectionRank(k.direction), DirectionRank(l.direction), 0, 0);
    var p := if k.protocol.Other? then k.protocol.number else 0;
    var q := if l.protocol.Other? then l.protocol.number else 0;
    ShortColumns(ProtocolRank(k.protocol), ProtocolRank(l.protocol), p, q);
  }

  lemma PortsBefore(p: Option<Port>, q: Option<Port>)
    ensures ColumnBefore(PortColumn(p), PortColumn(q)) <==> PortBefore(p, q)
  {
    hide ColumnBefore;
    var x := if p.Some? then p.value else 0;
    var y := if q.Some? then q.value else 0;
    ShortColumns(PortColumn(p)[0], PortColumn(q)[0], x, y);
  }

  lemma AddressesBefore(a: IpAddr, b: IpAddr)
    ensures ColumnBefore(AddressColumn(a), AddressColumn(b)) <==> AddressBefore(a, b)
  {
    var x, y := AddressColumn(a)[1..], AddressColumn(b)[1..];
    ColumnBeforeExactly(x, y);
    hide SmallerAtFirst;
  }

  lemma BeforeCons(x: Column, xs: Code, y: Column, ys: Code)
    ensures Before([x] + xs, [y] + ys) <==> if x != y then ColumnBefore(x, y) else Before(xs, ys)
  {
    assert ([x] + xs)[1..] == xs && ([y] + ys)[1..] == ys;
  }

  lemma FieldsDecide(k: FlowKey, l: FlowKey)
    ensures Chars(k.capturePoint) == Chars(l.capturePoint) <==> k.capturePoint == l.capturePoint
    ensures DirectionColumn(k.direction) == DirectionColumn(l.direction) <==> k.direction == l.direction
    ensures ProtocolColumn(k.protocol) == ProtocolColumn(l.protocol) <==> k.protocol == l.protocol
    ensures AddressColumn(k.sourceIp) == AddressColumn(l.sourceIp) <==> k.sourceIp == l.sourceIp
    ensures AddressColumn(k.destinationIp) == AddressColumn(l.destinationIp) <==> k.destinationIp == l.destinationIp
    ensures PortColumn(k.sourcePort) == PortColumn(l.sourcePort) <==> k.sourcePort == l.sourcePort
    ensures PortColumn(k.destinationPort) == PortColumn(l.destinationPort) <==> k.destinationPort == l.destinationPort
  {
    if Chars(k.capturePoint) == Chars(l.capturePoint) { CharsInjective(k.capturePoint, l.capturePoint); }
    if AddressColumn(k.sourceIp) == AddressColumn(l.sourceIp) { AddressColumnInjective(k.sourceIp, l.sourceIp); }
    if AddressColumn(k.destinationIp) == AddressColumn(l.destinationIp) {
      AddressColumnInjective(k.destinationIp, l.destinationIp);
    }
    ColumnsInjective(k.direction, l.direction, k.protocol, l.protocol);
    PortColumnInjective(k.sourcePort, l.sourcePort);
    PortColumnInjective(k.destinationPort, l.destinationPort);
  }

  lemma ColumnsInjective(d: Direction, e: Direction, p: TransportProtocol, q: TransportProtocol)
    ensures DirectionColumn(d) == DirectionColumn(e) ==> d == e
    ensures ProtocolColumn(p) == ProtocolColumn(q) ==> p == q
  {
    assert DirectionColumn(d)[0] == DirectionRank(d) && DirectionColumn(e)[0] == DirectionRank(e);
    assert ProtocolColumn(p)[0] == ProtocolRank(p) && ProtocolColumn(q)[0] == ProtocolRank(q);
    assert p.Other? && q.Other? ==> ProtocolColumn(p)[1] == p.number && ProtocolColumn(q)[1] == q.number;
  }

  lemma PortColumnInjective(p: Option<Port>, q: Option<Port>)
    ensures PortColumn(p) == PortColumn(q) ==> p == q
  {
    assert p.Some? && q.Some? ==> PortColumn(p)[1] == p.value && PortColumn(q)[1] == q.value;
  }

  /** The comparison of codes is the derived order of entries. */
  lemma CodeOrderIsDerived(b: nat, k: FlowKey, c: nat, l: FlowKey)
    ensures Before(EntryCode(b, k), EntryCode(c, l)) <==> b < c || (b == c && KeyBefore(k, l))
  {
    ShortColumns(b, c, 0, 0);
    assert [b] == [c] <==> [b][0] == [c][0];
    FieldsDecide(k, l);
    CharsBefore(k.capturePoint, l.capturePoint);
    ScalarsBefore(k, l);
    AddressesBefore(k.sourceIp, l.sourceIp);
    AddressesBefore(k.destinationIp, l.destinationIp);
    PortsBefore(k.sourcePort, l.sourcePort);
    PortsBefore(k.destinationPort, l.destinationPort);
    hide Before, ColumnBefore, Chars, DirectionColumn, ProtocolColumn, AddressColumn, PortColumn, TextBefore,
         AddressBefore,
         PortBefore, ProtocolBefore, DirectionRank;
    BeforeCons([b], KeyCode(k), [c], KeyCode(l));
    KeySteps(k, l);
  }

  lemma KeySteps(k: FlowKey, l: FlowKey)
    ensures Before(KeyCode(k), KeyCode(l))
       <==> if Chars(k.capturePoint) != Chars(l.capturePoint)
         then ColumnBefore(Chars(k.capturePoint), Chars(l.capturePoint))
            else if DirectionColumn(k.direction) != DirectionColumn(l.direction)
            then ColumnBefore(DirectionColumn(k.direction), DirectionColumn(l.direction))
            else if ProtocolColumn(k.protocol) != ProtocolColumn(l.protocol)
            then ColumnBefore(ProtocolColumn(k.protocol), ProtocolColumn(l.protocol))
            else if AddressColumn(k.sourceIp) != AddressColumn(l.sourceIp)
            then ColumnBefore(AddressColumn(k.sourceIp), AddressColumn(l.sourceIp))
            else if AddressColumn(k.destinationIp) != AddressColumn(l.destinationIp)
            then ColumnBefore(AddressColumn(k.destinationIp), AddressColumn(l.destinationIp))
            else if PortColumn(k.sourcePort) != PortColumn(l.sourcePort)
            then ColumnBefore(PortColumn(k.sourcePort), PortColumn(l.sourcePort))
            else PortColumn(k.destinationPort) != PortColumn(l.destinationPort)
                 && ColumnBefore(PortColumn(k.destinationPort), PortColumn(l.destinationPort))
  {
    hide Before, ColumnBefore, Chars, DirectionColumn, ProtocolColumn, AddressColumn, PortColumn;
    var a, b := KeyCode(k), KeyCode(l);
    CodeStep(a, b, 0);
    CodeStep(a, b, 1);
    CodeStep(a, b, 2);
    CodeStep(a, b, 3);
    CodeStep(a, b, 4);
    CodeStep(a, b, 5);
    CodeStep(a, b, 6);
    assert a[0..] == a && b[0..] == b && a[7..] == [] && b[7..] == [];
    NothingBefore();
  }

  lemma CodeStep(a: Code, b: Code, i: nat)
    requires i < |a| == |b|
    ensures Before(a[i..], b[i..]) <==> if a[i] != b[i]
             then ColumnBefore(a[i], b[i]) else Before(a[i + 1..], b[i + 1..])
  {
    assert a[i..] == [a[i]] + a[i + 1..] && b[i..] == [b[i]] + b[i + 1..];
    BeforeCons(a[i], a[i + 1..], b[i], b[i + 1..]);
  }

  lemma NothingBefore()
    ensures !Before([], [])
  {
  }

  // -------------------------------------------------------------- bottom key

  function MinimumFlowKey(): FlowKey {
    FlowKey("", Ingress, Tcp, V4([0, 0, 0, 0]), V4([0, 0, 0, 0]), None, None)
  }

  lemma {:induction false} ZerosAreLeast(a: Column, z: Column)
    requires |a| == |z| && forall i | 0 <= i < |z| :: z[i] == 0
    ensures !ColumnBefore(a, z)
  {
    if a != [] {
      ZerosAreLeast(a[1..], z[1..]);
    }
  }

  lemma AddressNotBelowZero(a: IpAddr)
    ensures !ColumnBefore(AddressColumn(a), AddressColumn(V4([0, 0, 0, 0])))
  {
    var zero := AddressColumn(V4([0, 0, 0, 0]));
    if a.V4? {
      ZerosAreLeast(AddressColumn(a), zero);
    }
  }

  /** A code no column of which is below the other's is not before it. */
  lemma {:induction false} NotBeforeByColumns(a: Code, b: Code)
    requires |a| == |b|
    requires forall i | 0 <= i < |a| :: !ColumnBefore(a[i], b[i])
    ensures !Before(a, b)
  {
    if a != [] {
      assert !ColumnBefore(a[0], b[0]);
      forall i | 0 <= i < |a[1..]| ensures !ColumnBefore(a[1..][i], b[1..][i]) {
        assert a[1..][i] == a[i + 1] && b[1..][i] == b[i + 1];
      }
      NotBeforeByColumns(a[1..], b[1..]);
    }
  }

  /** The key built by hand really is the bottom of the derived order. */
  lemma MinimumIsBottom(k: FlowKey)
    ensures !Before(KeyCode(k), KeyCode(MinimumFlowKey()))
  {
    AddressNotBelowZero(k.sourceIp);
    AddressNotBelowZero(k.destinationIp);
    assert ColumnBefore([], []) == false;
    NotBeforeByColumns(KeyCode(k), KeyCode(MinimumFlowKey()));
  }

  /** So comparing with (bucket, bottom key) only looks at the bucket. */
  lemma SplitKeyCutsByBucket(bucketStart: nat, k: FlowKey, cut: nat)
    ensures Before(EntryCode(bucketStart, k), EntryCode(cut, MinimumFlowKey())) <==> bucketStart < cut
  {
    MinimumIsBottom(k);
    var a, b := EntryCode(bucketStart, k), EntryCode(cut, MinimumFlowKey());
    assert a[0] == [bucketStart] && b[0] == [cut];
    assert a[1..] == KeyCode(k) && b[1..] == KeyCode(MinimumFlowKey());
    assert a[0] == b[0] <==> a[0][0] == b[0][0];
  }
}
