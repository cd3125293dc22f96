/** The choice of a proxy in turn (RoundRobinCodisPool.cpp and BfdCodis.py), and where the proxies come from. */
module RoundRobin {
  import opened Sequences
  import opened TextForms
  import opened Wrappers

  const INT_MAX := 0x7fff_ffff

  // ----- the arithmetic of taking turns -----

  /** How many of the `k` numbers from `s` on are congruent to `p`: how often proxy `p` of `n` is picked. */
  function Hits(s: nat, k: nat, p: nat, n: nat): nat
    requires p < n
  {
    if k == 0 then 0 else Hits(s, k - 1, p, n) + if (s + k - 1) % n == p then 1 else 0
  }

  /** The number of multiples of `n` at or below `y`, not counting 0. */
  function Upto(y: nat, n: nat): nat
    requires n > 0
  {
    y / n
  }

  lemma DivMod(q: nat, r: nat, n: nat)
    requires r < n
    ensures (q * n + r) / n == q && (q * n + r) % n == r
  {
    var y := q * n + r;
    assert y == y / n * n + y % n;
    Unique(y / n, y % n, q, r, n);
  }

  lemma Unique(q: int, r: int, q': int, r': int, n: nat)
    requires 0 <= r < n && 0 <= r' < n && q * n + r == q' * n + r'
    ensures q == q' && r == r'
  {
    assert (q - q') * n == r' - r;
    Apart(q - q', n);
  }

  lemma Apart(d: int, n: nat)
    ensures d >= 1 ==> d * n >= n
    ensures d <= -1 ==> d * n <= 0 - n
  {
  }

  lemma DivStep(y: nat, n: nat)
    requires n > 0
    ensures Upto(y + 1, n) == Upto(y, n) + if (y + 1) % n == 0 then 1 else 0
  {
    var q, r := y / n, y % n;
    assert y == q * n + r;
    if r + 1 < n {
      DivMod(q, r + 1, n);
    } else {
      assert y + 1 == (q + 1) * n + 0;
      DivMod(q + 1, 0, n);
    }
  }

  lemma ShiftMod(x: nat, p: nat, n: nat)
    requires p < n
    ensures (x + n - p) % n == 0 <==> x % n == p
  {
    var q, r := x / n, x % n;
    assert x == q * n + r;
    if r >= p {
      assert x + n - p == (q + 1) * n + (r - p);
      DivMod(q + 1, r - p, n);
    } else {
      assert x + n - p == q * n + (r + n - p);
      DivMod(q, r + n - p, n);
    }
  }

  lemma {:induction false} HitsClosed(s: nat, k: nat, p: nat, n: nat)
    requires p < n
    ensures Hits(s, k, p, n) == Upto(s + k + n - 1 - p, n) - Upto(s + n - 1 - p, n)
    decreases k
  {
    if k == 0 {
    } else {
      HitsClosed(s, k - 1, p, n);
      DivStep(s + k + n - 2 - p, n);
      ShiftMod(s + k - 1, p, n);
    }
  }

  lemma Distributes(a: nat, b: nat, n: nat)
    ensures (a + b) * n == a * n + b * n
  {
  }

  lemma DivSum(y: nat, k: nat, n: nat)
    requires n > 0
    ensures k / n <= Upto(y + k, n) - Upto(y, n) <= (k + n - 1) / n
  {
    var q, r, u, v := y / n, y % n, k / n, k % n;
    QuotientOfSum(q, r, u, v, n);
    assert y == q * n + r && k == u * n + v;
    Ceiling(u, v, n);
  }

  lemma QuotientOfSum(q: nat, r: nat, u: nat, v: nat, n: nat)
    requires r < n && v < n
    ensures (q * n + r + (u * n + v)) / n == q + u + if r + v < n then 0 else 1
  {
    Distributes(q, u, n);
    if r + v < n {
      DivMod(q + u, r + v, n);
    } else {
      Distributes(q + u, 1, n);
      DivMod(q + u + 1, r + v - n, n);
    }
  }

  lemma Ceiling(u: nat, v: nat, n: nat)
    requires v < n
    ensures (u * n + v + n - 1) / n == if v == 0 then u else u + 1
  {
    if v == 0 {
      DivMod(u, n - 1, n);
    } else {
      Distributes(u, 1, n);
      DivMod(u + 1, v - 1, n);
    }
  }

  /** Fairness: any `k` picks in a row choose each of `n` proxies floor(k/n) or ceil(k/n) times. */
  lemma Fair(s: nat, k: nat, p: nat, n: nat)
    requires p < n
    ensures k / n <= Hits(s, k, p, n) <= (k + n - 1) / n
  {
    HitsClosed(s, k, p, n);
    DivSum(s + n - 1 - p, k, n);
  }

  // ----- Python's counter -----

  /** The index after one call of __getProxy with `n` connections; without any it yields no connection. */
  function PythonNext(index: int, n: nat): int {
    if index + 1 >= n then 0 else index + 1
  }

  /** The k-th pick from a starting index. */
  function PythonPick(index: int, n: nat, k: nat): int
    decreases k
  {
    if k == 0 then PythonNext(index, n) else PythonPick(PythonNext(index, n), n, k - 1)
  }

  /** The C++ pick: the k-th from a starting counter. */
  function CppPick(counter: int, n: nat, k: nat): nat
    requires n > 0 && counter >= -1
  {
    (counter + 1 + k) % n
  }

  lemma ModStep(c: nat, n: nat)
    requires n > 0
    ensures (c + 1) % n == if c % n == n - 1 then 0 else c % n + 1
  {
    var q, r := c / n, c % n;
    assert c == q * n + r;
    if r == n - 1 {
      assert c + 1 == (q + 1) * n + 0;
      DivMod(q + 1, 0, n);
    } else {
      DivMod(q, r + 1, n);
    }
  }

  /** From any index, in range or not, and any counter, all further picks agree exactly when the next one does: the
      two implementations keep step from congruent starts. */
  lemma {:induction false} PicksAgreeIff(index: int, counter: int, n: nat)
    requires n > 0 && index >= -1 && counter >= -1
    ensures (forall k: nat :: PythonPick(index, n, k) == CppPick(counter, n, k))
      <==> PythonNext(index, n) == (counter + 1) % n
  {
    if PythonNext(index, n) == (counter + 1) % n {
      forall k: nat ensures PythonPick(index, n, k) == CppPick(counter, n, k) {
        PicksAgree(index, counter, n, k);
      }
    } else {
      assert PythonPick(index, n, 0) != CppPick(counter, n, 0);
    }
  }

  lemma {:induction false} PicksAgree(index: int, counter: int, n: nat, k: nat)
    requires n > 0 && index >= -1 && counter >= -1
    requires PythonNext(index, n) == (counter + 1) % n
    ensures PythonPick(index, n, k) == CppPick(counter, n, k)
    decreases k
  {
    if k == 0 {
    } else {
      var i := PythonNext(index, n);
      ModStep(counter + 1, n);
      PicksAgree(i, counter + 1, n, k - 1);
    }
  }

  // ----- the pool of proxies -----

  /** A CodisClient, as far as the pool cares: where it is connected. */
  class Proxy {
    const address: string
    const port: int

    constructor (address: string, port: int)
      ensures this.address == address && this.port == port
    {
      this.address, this.port := address, port;
    }
  }

  class RoundRobinCodisPool {
    var proxys: seq<Proxy>
    var proxyIndex: int
    ghost var deleted: seq<Proxy>

    /** There is always a proxy to choose, all are distinct and alive, and none is deleted twice. */
    ghost predicate Valid()
      reads this
    {
      && proxys != [] && proxyIndex >= -1
      && Distinct(proxys) && Distinct(deleted)
      && (forall p | p in proxys :: p !in deleted)
    }

    constructor (infos: seq<(string, int)>)
      requires infos != []
      ensures Valid() && proxyIndex == -1 && Describes(proxys, infos) && |proxys| == |infos|
      ensures forall i | 0 <= i < |infos| :: proxys[i].address == infos[i].0 && proxys[i].port == infos[i].1
    {
      proxys, proxyIndex, deleted := [], -1, [];
      new;
      proxys := MakeProxies(infos);
    }

    /** GetProxy, while the int counter does not overflow. */
    method GetProxy() returns (p: Proxy)
      requires Valid() && proxyIndex < INT_MAX
      modifies this`proxyIndex
      ensures Valid() && proxyIndex == old(proxyIndex) + 1
      ensures p == proxys[CppPick(old(proxyIndex), |proxys|, 0)] == proxys[(old(proxyIndex) + 1) % |proxys|]
      ensures p !in deleted
    {
      proxyIndex := proxyIndex + 1;
      var idx := proxyIndex % |proxys|;
      p := proxys[idx];
    }

    /** The first loop of InitProxyConns. */
    method MakeProxies(infos: seq<(string, int)>) returns (ps: seq<Proxy>)
      ensures Describes(ps, infos) && Distinct(ps) && forall p | p in ps :: fresh(p)
    {
      ps := [];
      for i := 0 to |infos|
        invariant Describes(ps, infos[..i]) && Distinct(ps) && forall p | p in ps :: fresh(p)
      {
        var p := new Proxy(infos[i].0, infos[i].1);
        ps := ps + [p];
      }
      assert infos[..|infos|] == infos;
    }

    /** InitProxyConns: the new proxies take the place of the old, which are deleted, each once. */
    method InitProxyConns(infos: seq<(string, int)>)
      requires Valid() && infos != []
      modifies this
      ensures Valid() && Describes(proxys, infos) && proxyIndex == old(proxyIndex) && |proxys| == |infos|
      ensures forall i | 0 <= i < |infos| :: proxys[i].address == infos[i].0 && proxys[i].port == infos[i].1
      ensures deleted == old(deleted) + old(proxys)
      ensures forall p | p in proxys :: p !in old(proxys)
    {
      var fresh' := MakeProxies(infos);
      var gone := proxys;
      assert forall p | p in fresh' :: p !in gone && p !in deleted;
      proxys := fresh';
      DeleteAll(gone);
    }

    /** The last loop of InitProxyConns. */
    method DeleteAll(gone: seq<Proxy>)
      requires Distinct(deleted) && Distinct(gone) && forall p | p in gone :: p !in deleted
      modifies this`deleted
      ensures deleted == old(deleted) + gone && Distinct(deleted)
    {
      for i := 0 to |gone|
        invariant deleted == old(deleted) + gone[..i]
      {
        assert gone[i] in gone;
        Delete(gone[i]);
      }
      DistinctConcat(old(deleted), gone);
      assert gone[..|gone|] == gone;
    }

    /** `delete`, which a proxy must reach at most once. */
    method Delete(p: Proxy)
      requires p !in deleted
      modifies this`deleted
      ensures deleted == old(deleted) + [p]
    {
      deleted := deleted + [p];
    }

    /** `k` calls in a row: each proxy comes up floor(k/n) or ceil(k/n) times. */
    method GetProxies(k: nat) returns (picked: seq<Proxy>)
      requires Valid() && proxyIndex + k <= INT_MAX
      modifies this`proxyIndex
      ensures Valid() && proxyIndex == old(proxyIndex) + k
      ensures |picked| == k && forall i | 0 <= i < k :: picked[i] == proxys[CppPick(old(proxyIndex), |proxys|, i)]
      ensures forall p | 0 <= p < |proxys| ::
        k / |proxys| <= multiset(picked)[proxys[p]] <= (k + |proxys| - 1) / |proxys|
    {
      picked := [];
      for j := 0 to k
        invariant Valid() && proxyIndex == old(proxyIndex) + j
        invariant |picked| == j && forall i | 0 <= i < j :: picked[i] == proxys[CppPick(old(proxyIndex), |proxys|, i)]
      {
        var p := GetProxy();
        picked := picked + [p];
      }
      forall p | 0 <= p < |proxys|
        ensures k / |proxys| <= multiset(picked)[proxys[p]] <= (k + |proxys| - 1) / |proxys|
      {
        OccurrencesAreHits(proxys, picked, old(proxyIndex) + 1, p);
        Fair(old(proxyIndex) + 1, k, p, |proxys|);
      }
    }
  }

  /** The Python client's pool: its index survives reconfiguration and is brought back into range by the next call. */
  class BfdCodis {
    var connPool: seq<Proxy>
    var connPoolIndex: int

    constructor ()
      ensures connPool == [] && connPoolIndex == -1
    {
      connPool, connPoolIndex := [], -1;
    }

    /** __InitFromZK, given the connections it made */
    method InitFromZK(conns: seq<Proxy>)
      modifies this`connPool
      ensures connPool == conns
    {
      connPool := [];
      for i := 0 to |conns|
        invariant connPool == conns[..i]
      {
        connPool := connPool + [conns[i]];
      }
    }

    /** __getProxy: whatever happened to the pool, the connection picked is in it, and there is none only when it is
        empty. */
    method GetProxy() returns (conn: Option<Proxy>)
      requires connPoolIndex >= -1
      modifies this`connPoolIndex
      ensures connPoolIndex == PythonNext(old(connPoolIndex), |connPool|)
      ensures connPoolIndex == if old(connPoolIndex) + 1 >= |connPool| then 0 else old(connPoolIndex) + 1
      ensures conn == None <==> connPool == []
      ensures conn.Some? ==> connPoolIndex < |connPool| && conn.value == connPool[connPoolIndex]
    {
      connPoolIndex := connPoolIndex + 1;
      if connPoolIndex >= |connPool| {
        connPoolIndex := 0;
      }
      if |connPool| == 0 {
        return None;
      }
      return Some(connPool[connPoolIndex]);
    }
  }

  lemma {:induction false} OccurrencesAreHits(proxys: seq<Proxy>, picked: seq<Proxy>, s: nat, p: nat)
    requires p < |proxys| && Distinct(proxys)
    requires forall i | 0 <= i < |picked| :: picked[i] == proxys[(s + i) % |proxys|]
    ensures multiset(picked)[proxys[p]] == Hits(s, |picked|, p, |proxys|)
    decreases |picked|
  {
    if picked == [] {
    } else {
      var n := |picked| - 1;
      OccurrencesAreHits(proxys, picked[..n], s, p);
      assert picked == picked[..n] + [picked[n]];
    }
  }

  predicate Describes(ps: seq<Proxy>, infos: seq<(string, int)>) {
    |ps| == |infos| && forall i | 0 <= i < |ps| :: ps[i].address == infos[i].0 && ps[i].port == infos[i].1
  }

  // ----- discovering the proxies -----

  /** The data of one proxy node: unparsable, or JSON with these string members. */
  datatype Node = Garbage | Json(state: Option<string>, addr: Option<string>)

  /** What one node contributes: an online node with an address of at least two parts. */
  function InfoOf(n: Node): seq<(string, int)> {
    if n.Json? && n.state == Some("online") && n.addr.Some? then
      var parts := Split(n.addr.value, ':');
      if |parts| > 1 then [(parts[0], String2Int(parts[1]))] else []
    else []
  }

  function InfosOf(nodes: seq<Node>): seq<(string, int)> {
    if nodes == [] then [] else InfosOf(nodes[..|nodes|-1]) + InfoOf(nodes[|nodes|-1])
  }

  /** The node is online and names the address in at least two parts. */
  predicate Offers(n: Node, address: string, port: int) {
    && n.Json? && n.state == Some("online") && n.addr.Some?
    && |Split(n.addr.value, ':')| > 1
    && address == Split(n.addr.value, ':')[0] && port == String2Int(Split(n.addr.value, ':')[1])
  }

  /** Nodes contribute in order, one entry for each that is online with an address of at least two parts, and nothing
      for any other. */
  lemma NodesInOrder(nodes: seq<Node>, n: Node)
    ensures InfosOf([]) == []
    ensures InfosOf(nodes + [n]) == InfosOf(nodes)
                                    + if n.Json? && n.state == Some("online") && n.addr.Some?
                                         && |Split(n.addr.value, ':')| > 1
                                      then [(Split(n.addr.value, ':')[0], String2Int(Split(n.addr.value, ':')[1]))]
                                      else []
  {
    assert (nodes + [n])[..|nodes|] == nodes;
  }

  /** An entry is found exactly when some online node offers it. */
  lemma {:induction false} FoundIffOffered(nodes: seq<Node>, address: string, port: int)
    ensures (address, port) in InfosOf(nodes) <==> exists n | n in nodes :: Offers(n, address, port)
  {
    if nodes == [] {
    } else {
      var k := |nodes| - 1;
      FoundIffOffered(nodes[..k], address, port);
      assert nodes == nodes[..k] + [nodes[k]];
      assert (address, port) in InfoOf(nodes[k]) <==> Offers(nodes[k], address, port);
    }
  }

  /** The loop of GetProxyInfos. */
  method GetProxyInfos(nodes: seq<Node>) returns (proxys: seq<(string, int)>)
    ensures proxys == InfosOf(nodes)
  {
    proxys := [];
    for i := 0 to |nodes|
      invariant proxys == InfosOf(nodes[..i])
    {
      assert nodes[..i+1][..i] == nodes[..i];
      match nodes[i]
      case Garbage => continue;
      case Json(state, addr) =>
        if state == Some("online") {
          if addr.Some? {
            var proxyinfo := SplitLoop(addr.value, ':');
            if |proxyinfo| > 1 {
              proxys := proxys + [(proxyinfo[0], String2Int(proxyinfo[1]))];
            }
          }
        }
    }
    assert nodes[..|nodes|] == nodes;
  }

  /** The node publishes the proxy: online, with the proxy's id as its address. */
  predicate Publishes(n: Node, info: (string, int)) {
    n == Json(Some("online"), Some(GetId(info.0, info.1)))
  }

  predicate AllPublished(nodes: seq<Node>, infos: seq<(string, int)>) {
    |nodes| == |infos| && forall i | 0 <= i < |nodes| :: Publishes(nodes[i], infos[i])
  }

  predicate ColonFree(infos: seq<(string, int)>) {
    forall i | 0 <= i < |infos| :: ':' !in infos[i].0
  }

  /** Proxies that publish their id as address are all found, in order, with exactly their address and port, if and
      only if no address has a colon. */
  lemma {:induction false} PublishedAreFoundIff(infos: seq<(string, int)>, nodes: seq<Node>)
    requires AllPublished(nodes, infos)
    ensures InfosOf(nodes) == infos <==> ColonFree(infos)
    decreases |infos|
  {
    if infos == [] {
    } else {
      var n := |infos| - 1;
      PublishedAreFoundIff(infos[..n], nodes[..n]);
      OnePerNode(nodes[..n], infos[..n]);
      assert Publishes(nodes[n], infos[n]);
      OneFound(nodes[n], infos[n]);
      Snoc(infos, n);
      assert InfosOf(nodes) == InfosOf(nodes[..n]) + InfoOf(nodes[n]);
      SameParts(InfosOf(nodes[..n]), infos[..n], InfoOf(nodes[n]), [infos[n]]);
    }
  }

  lemma Snoc(infos: seq<(string, int)>, n: nat)
    requires |infos| == n + 1
    ensures infos == infos[..n] + [infos[n]]
    ensures ColonFree(infos) <==> ColonFree(infos[..n]) && ':' !in infos[n].0
  {
  }

  lemma SameParts<T>(a: seq<T>, b: seq<T>, c: seq<T>, d: seq<T>)
    requires |a| == |b|
    ensures a + c == b + d <==> a == b && c == d
  {
    if a + c == b + d {
      assert a == (a + c)[..|a|] && b == (b + d)[..|a|];
      assert c == (a + c)[|a|..] && d == (b + d)[|a|..];
    }
  }

  lemma OneFound(n: Node, info: (string, int))
    requires Publishes(n, info)
    ensures |InfoOf(n)| == 1 && (InfoOf(n) == [info] <==> ':' !in info.0)
  {
    IdRoundTripIff(info.0, info.1);
    TwoParts(info.0, info.1);
  }

  lemma TwoParts(address: string, port: int)
    ensures |Split(GetId(address, port), ':')| > 1
  {
    var id, p := GetId(address, port), Int2String(port);
    assert id[|address|] == ':' && |id| == |address| + 1 + |p| && p != "";
    var k := EndOfPart(id, ':', 0);
    EndMeans(id, ':', 0);
    SplitFirstAt(id, k, ':', id[k+1..]);
  }

  lemma {:induction false} OnePerNode(nodes: seq<Node>, infos: seq<(string, int)>)
    requires AllPublished(nodes, infos)
    ensures |InfosOf(nodes)| == |infos|
    decreases |infos|
  {
    if infos == [] {
    } else {
      var n := |infos| - 1;
      OnePerNode(nodes[..n], infos[..n]);
      assert Publishes(nodes[n], infos[n]);
      OneFound(nodes[n], infos[n]);
    }
  }
}
