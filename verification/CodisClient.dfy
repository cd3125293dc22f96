/** The multi-key and hash calls of CodisClient.cpp, against the tenant's view of the server. */
module CodisClient {
  import opened KeyRewrite
  import opened Wrappers

  /** The longest value a call accepts; longer ones raise the client's exception before anything is sent. */
  const MAX_VALUE := 1048576

  // ----- reading replies (Reply.cpp) -----

  predicate IsError(r: Reply) { r.Error? }

  function StrOf(r: Reply): string {
    match r
    case Bulk(s) => s
    case Status(s) => s
    case Error(m) => m
    case _ => ""
  }

  /** What a client reads from a lookup: the string stored, or "" for a missing key or another type. */
  lemma LookupMeans(s: Store, k: string)
    ensures StrOf(Get(s, k)) == if k in s && s[k].Str? then s[k].s else ""
  {
  }

  /** The server's reply carries the text "OK", as a status, a string or the text of an error. */
  predicate SaysOk(r: Reply) {
    r == Status("OK") || r == Bulk("OK") || r == Error("OK")
  }

  lemma SaysOkIff(r: Reply)
    ensures SaysOk(r) <==> StrOf(r) == "OK"
  {
  }

  function IntegerOf(r: Reply): int {
    if r.Integer? then r.i else 0
  }

  function ElementsOf(r: Reply): seq<Reply> {
    if r.Array? then r.elements else []
  }

  function Strs(e: seq<Reply>): seq<string> {
    seq(|e|, i requires 0 <= i < |e| => StrOf(e[i]))
  }

  // ----- argument lists -----

  /** Field and value in turn. */
  function Interleave(fields: seq<string>, values: seq<string>): (r: seq<string>)
    requires |fields| == |values|
    ensures |r| == 2 * |fields|
    ensures forall i | 0 <= i < |fields| :: r[2*i] == fields[i] && r[2*i+1] == values[i]
  {
    if fields == [] then []
    else
      var n := |fields| - 1;
      Interleave(fields[..n], values[..n]) + [fields[n], values[n]]
  }

  /** Every second element; `k` is 0 for the fields and 1 for the values, and an odd last element is left out. */
  function EverySecond(e: seq<string>, k: nat): (r: seq<string>)
    requires k < 2
    ensures |r| == |e| / 2
    ensures forall i | 0 <= i < |r| :: r[i] == e[2*i+k]
  {
    seq(|e| / 2, i requires 0 <= i < |e| / 2 => e[2*i+k])
  }

  /** hgetall's splitting undoes hmset's interleaving. */
  lemma SplitInterleave(fields: seq<string>, values: seq<string>)
    requires |fields| == |values|
    ensures EverySecond(Interleave(fields, values), 0) == fields
    ensures EverySecond(Interleave(fields, values), 1) == values
  {
  }

  /** The other way round it holds exactly for lists of even length. */
  lemma InterleaveSplitIff(e: seq<string>)
    ensures Interleave(EverySecond(e, 0), EverySecond(e, 1)) == e <==> |e| % 2 == 0
  {
    var r := Interleave(EverySecond(e, 0), EverySecond(e, 1));
    if |e| % 2 == 0 {
      forall i | 0 <= i < |e| ensures r[i] == e[i] {
        var j := i / 2;
        if i % 2 == 0 {
          assert r[2*j] == EverySecond(e, 0)[j];
        } else {
          assert r[2*j+1] == EverySecond(e, 1)[j];
        }
      }
    }
  }

  // ----- what the server's loops mean -----

  /** The keys named from argument `i` on. */
  function Named(c: Command, i: nat): set<string>
    decreases |c| - i
  {
    if i >= |c| then {} else {c[i]} + Named(c, i + 1)
  }

  lemma {:induction false} NamedIsTail(c: Command, i: nat)
    ensures forall k :: k in Named(c, i) <==> k in Tail(c, i)
    decreases |c| - i
  {
    if i >= |c| {
    } else {
      NamedIsTail(c, i + 1);
      assert Tail(c, i) == [c[i]] + Tail(c, i + 1);
    }
  }

  /** DEL removes the named keys. */
  lemma {:induction false} DelRemoves(s: Store, c: Command, i: nat)
    ensures DelFrom(s, c, i).0 == s - Named(c, i)
    decreases |c| - i
  {
    if i >= |c| {
    } else {
      DelRemoves(s - {c[i]}, c, i + 1);
      RemoveSplit(s, c[i], Named(c, i + 1));
    }
  }

  /** DEL counts the named keys that existed. */
  lemma {:induction false} DelCounts(s: Store, c: Command, i: nat)
    ensures DelFrom(s, c, i).1 == |s.Keys * Named(c, i)|
    decreases |c| - i
  {
    if i >= |c| {
      assert s.Keys * {} == {};
    } else {
      DelCounts(s - {c[i]}, c, i + 1);
      RemoveSplit(s, c[i], Named(c, i + 1));
      CountSplit(s.Keys, c[i], Named(c, i + 1));
    }
  }

  lemma RemoveSplit(s: Store, k: string, rest: set<string>)
    ensures s - {k} - rest == s - ({k} + rest) && (s - {k}).Keys == s.Keys - {k}
  {
  }

  lemma CountSplit(ks: set<string>, k: string, rest: set<string>)
    ensures |ks * ({k} + rest)| == |(ks - {k}) * rest| + if k in ks then 1 else 0
  {
    var a, b := ks * ({k} + rest), (ks - {k}) * rest;
    assert a == if k in ks then b + {k} else b;
  }

  /** MSET of distinct keys writes each of them and nothing else. */
  lemma {:induction false} SetMeans(s: Store, c: Command, i: nat, keys: seq<string>, values: seq<string>, n: nat)
    requires |keys| == |values| && n <= |keys| && |c| == i + 2 * (|keys| - n)
    requires forall j | n <= j < |keys| :: c[i + 2*(j-n)] == keys[j] && c[i + 2*(j-n) + 1] == values[j]
    requires forall j, k | 0 <= j < k < |keys| :: keys[j] != keys[k]
    ensures var t := SetFrom(s, c, i);
      && (forall j | n <= j < |keys| :: keys[j] in t && t[keys[j]] == Str(values[j]))
      && (forall x | x !in keys[n..] :: (x in t <==> x in s) && (x in t ==> t[x] == s[x]))
    decreases |keys| - n
  {
    if n >= |keys| {
    } else {
      assert c[i + 2*(n-n)] == keys[n];
      var u := s[c[i] := Str(c[i+1])];
      forall j | n + 1 <= j < |keys|
        ensures c[i + 2 + 2*(j-(n+1))] == keys[j] && c[i + 2 + 2*(j-(n+1)) + 1] == values[j]
      {
        assert i + 2 + 2*(j-(n+1)) == i + 2*(j-n);
      }
      SetMeans(u, c, i + 2, keys, values, n + 1);
      assert keys[n..] == [keys[n]] + keys[n+1..];
      assert keys[n] !in keys[n+1..];
    }
  }

  /** Every key holds its value now, and all others are as before. */
  ghost predicate Assigned(s: Store, t: Store, keys: seq<string>, values: seq<string>)
    requires |keys| == |values|
  {
    && (forall i | 0 <= i < |keys| :: keys[i] in t && t[keys[i]] == Str(values[i]))
    && (forall x | x !in keys :: (x in t <==> x in s) && (x in t ==> t[x] == s[x]))
  }

  lemma MsetMeans(sem: Semantics, s: Store, keys: seq<string>, values: seq<string>)
    requires |keys| == |values| > 0 && forall i, j | 0 <= i < j < |keys| :: keys[i] != keys[j]
    ensures var c := ["MSET"] + Interleave(keys, values);
      && Harmless(c) && Exec(sem, s, c).1 == Status("OK")
      && Assigned(s, Exec(sem, s, c).0, keys, values)
  {
    var c := ["MSET"] + Interleave(keys, values);
    MsetPlacesOf(keys, values);
    MsetAssigns(sem, s, c, keys, values);
  }

  lemma MsetAssigns(sem: Semantics, s: Store, c: Command, keys: seq<string>, values: seq<string>)
    requires |keys| == |values| > 0 && forall i, j | 0 <= i < j < |keys| :: keys[i] != keys[j]
    requires |c| == 1 + 2 * |keys| && c[0] == "MSET"
    requires forall j | 0 <= j < |keys| :: c[1 + 2*(j-0)] == keys[j] && c[1 + 2*(j-0) + 1] == values[j]
    ensures Harmless(c) && Exec(sem, s, c).1 == Status("OK")
    ensures Assigned(s, Exec(sem, s, c).0, keys, values)
  {
    OddLength(|keys|);
    MsetExec(sem, s, c);
    SetMeans(s, c, 1, keys, values, 0);
    AllKeys(s, SetFrom(s, c, 1), keys, values);
  }

  lemma OddLength(n: nat)
    ensures (1 + 2 * n) % 2 == 1
  {
  }

  lemma MsetExec(sem: Semantics, s: Store, c: Command)
    requires |c| >= 3 && c[0] == "MSET" && |c| % 2 == 1
    ensures Harmless(c) && Exec(sem, s, c) == (SetFrom(s, c, 1), Status("OK"))
  {
    LowerSpellings();
  }

  lemma AllKeys(s: Store, t: Store, keys: seq<string>, values: seq<string>)
    requires |keys| == |values|
    requires forall j | 0 <= j < |keys| :: keys[j] in t && t[keys[j]] == Str(values[j])
    requires forall x | x !in keys[0..] :: (x in t <==> x in s) && (x in t ==> t[x] == s[x])
    ensures Assigned(s, t, keys, values)
  {
  }

  lemma MsetPlacesOf(keys: seq<string>, values: seq<string>)
    requires |keys| == |values|
    ensures var c := ["MSET"] + Interleave(keys, values);
      && |c| == 1 + 2 * |keys|
      && forall j | 0 <= j < |keys| :: c[1 + 2*(j-0)] == keys[j] && c[1 + 2*(j-0) + 1] == values[j]
  {
  }

  // ----- the client -----

  class Server {
    var store: Store

    constructor ()
    {
      store := map[];
    }
  }

  class CodisClient {
    const bid: string
    const server: Server

    constructor (bid: string, server: Server)
      ensures this.bid == bid && this.server == server
    {
      this.bid, this.server := bid, server;
    }

    /** What this tenant sees. */
    function Seen(): Store
      reads server
    {
      View(Prefix(bid), server.store)
    }

    /** RedisCommand: refuses short commands, needs a connection (`up`), and otherwise sends the rewritten command. */
    method RedisCommand(sem: Semantics, command: Command, up: bool) returns (reply: Reply)
      modifies server
      ensures (|command| < 2 || !up) ==> IsError(reply) && StrOf(reply) != "OK" && server.store == old(server.store)
      ensures |command| >= 2 && up ==> (server.store, reply) == Exec(sem, old(server.store), Rewritten(bid, command))
      ensures |command| >= 2 && up && (bid == "" || Harmless(command)) ==>
        && (Seen(), reply) == Exec(sem, old(Seen()), command)
        && OutsideKept(Prefix(bid), old(server.store), server.store)
    {
      if |command| < 2 {
        return Error("Command length should gt 2");
      }
      var innerCommand := RewriteCommand(bid, command);
      if !up {
        return Error("context is NULL !!");
      }
      if bid == "" || Harmless(command) {
        HarmlessIsSame(sem, bid, server.store, command);
      }
      var (t, r) := Exec(sem, server.store, innerCommand);
      server.store := t;
      return r;
    }

    /** del(vector): the named keys are gone; the result counts those that existed. */
    method Del(sem: Semantics, keys: seq<string>, up: bool) returns (r: int)
      modifies server
      ensures up && keys != [] ==>
        var ks := set k | k in keys;
        Seen() == old(Seen()) - ks && r == |old(Seen()).Keys * ks|
      ensures !up || keys == [] ==> r == 0 && server.store == old(server.store)
      ensures OutsideKept(Prefix(bid), old(server.store), server.store)
    {
      var command := ["DEL"];
      for i := 0 to |keys|
        invariant command == ["DEL"] + keys[..i]
      {
        command := command + [keys[i]];
      }
      assert command == ["DEL"] + keys;
      LowerSpellings();
      DelRemoves(Seen(), command, 1);
      DelCounts(Seen(), command, 1);
      NamedIsTail(command, 1);
      assert Tail(command, 1) == keys;
      assert Named(command, 1) == set k | k in keys;
      var rep := RedisCommand(sem, command, up);
      r := IntegerOf(rep);
    }

    /** mget: the values the tenant sees, in order, with "" for what is missing or not a string. */
    method Mget(sem: Semantics, keys: seq<string>, up: bool) returns (values: seq<string>)
      modifies server
      ensures server.store == old(server.store)
      ensures up && keys != [] ==>
        |values| == |keys| && forall i | 0 <= i < |keys| :: values[i] == StrOf(Get(old(Seen()), keys[i]))
      ensures !up || keys == [] ==> values == []
    {
      var comm := ["MGET"];
      for i := 0 to |keys|
        invariant comm == ["MGET"] + keys[..i]
      {
        comm := comm + [keys[i]];
      }
      assert comm == ["MGET"] + keys;
      LowerSpellings();
      var rep := RedisCommand(sem, comm, up);
      values := [];
      if IsError(rep) {
        return;
      }
      values := StrsOf(ElementsOf(rep));
    }

    /** mget's loop over the reply's elements. */
    method StrsOf(elements: seq<Reply>) returns (values: seq<string>)
      ensures values == Strs(elements)
    {
      values := [];
      for i := 0 to |elements|
        invariant |values| == i && forall j | 0 <= j < i :: values[j] == StrOf(elements[j])
      {
        values := values + [StrOf(elements[i])];
      }
    }

    /** The command mget2 sends, built without going through RedisCommand: the same as the rewriting gives. */
    method Mget2Command(keys: seq<string>) returns (command: Command)
      ensures keys != [] ==> command == Rewritten(bid, ["MGET"] + keys)
      ensures keys == [] ==> command == ["MGET"]
    {
      command := ["MGET"];
      for i := 0 to |keys|
        invariant |command| == i + 1 && command[0] == "MGET"
        invariant forall j | 0 <= j < i :: command[j+1] == Prefix(bid) + keys[j]
      {
        if bid != "" {
          command := command + [bid + "_" + keys[i]];
        } else {
          assert "" + keys[i] == keys[i];
          command := command + [keys[i]];
        }
      }
    }

    /** mset's command, from the map's keys in order. */
    method MsetCommand(keys: seq<string>, values: seq<string>) returns (r: Outcome<Command>)
      requires |keys| == |values|
      ensures r == Thrown <==> exists i :: 0 <= i < |values| && |values[i]| > MAX_VALUE
      ensures r.Ok? ==> r.value == ["MSET"] + Interleave(keys, values)
    {
      var comm := ["MSET"];
      for i := 0 to |keys|
        invariant comm == ["MSET"] + Interleave(keys[..i], values[..i])
        invariant forall j | 0 <= j < i :: |values[j]| <= MAX_VALUE
      {
        if |values[i]| > MAX_VALUE {
          return Thrown;
        }
        comm := comm + [keys[i], values[i]];
        InterleaveStep(keys, values, i);
      }
      assert keys[..|keys|] == keys && values[..|keys|] == values;
      return Ok(comm);
    }

    /** mset: all or nothing. */
    method Mset(sem: Semantics, keys: seq<string>, values: seq<string>, up: bool) returns (r: Outcome<bool>)
      requires |keys| == |values| && forall i, j | 0 <= i < j < |keys| :: keys[i] != keys[j]
      modifies server
      ensures r == Thrown <==> exists i :: 0 <= i < |values| && |values[i]| > MAX_VALUE
      ensures r != Ok(true) ==> server.store == old(server.store)
      ensures r.Ok? ==> (r.value <==> up && keys != [])
      ensures r == Ok(true) ==> Assigned(old(Seen()), Seen(), keys, values)
      ensures OutsideKept(Prefix(bid), old(server.store), server.store)
    {
      var comm := MsetCommand(keys, values);
      if comm.Thrown? {
        return Thrown;
      }
      if keys != [] {
        MsetMeans(sem, Seen(), keys, values);
      }
      var rep := RedisCommand(sem, comm.value, up);
      return Ok(!IsError(rep));
    }

    /** hmset's command: one field and one value at a time. */
    method HmsetCommand(key: string, fields: seq<string>, values: seq<string>) returns (r: Outcome<Command>)
      requires |fields| == |values| > 0
      ensures r == Thrown <==> exists i :: 0 <= i < |values| && |values[i]| > MAX_VALUE
      ensures r.Ok? ==> r.value == ["HMSET", key] + Interleave(fields, values)
    {
      var command := ["HMSET", key];
      for i := 0 to |fields|
        invariant command == ["HMSET", key] + Interleave(fields[..i], values[..i])
        invariant forall j | 0 <= j < i :: |values[j]| <= MAX_VALUE
      {
        if |values[i]| > MAX_VALUE {
          return Thrown;
        }
        command := command + [fields[i], values[i]];
        InterleaveStep(fields, values, i);
      }
      assert fields[..|fields|] == fields && values[..|fields|] == values;
      return Ok(command);
    }

    /** hmset: false without sending anything when the lists differ in length or are empty. */
    method Hmset(sem: Semantics, key: string, fields: seq<string>, values: seq<string>, up: bool)
      returns (r: Outcome<bool>)
      modifies server
      ensures |fields| != |values| || fields == [] ==> r == Ok(false) && server.store == old(server.store)
      ensures r == Thrown
        <==> |fields| == |values| && fields != [] && exists i :: 0 <= i < |values| && |values[i]| > MAX_VALUE
      ensures r == Thrown ==> server.store == old(server.store)
      ensures !up && r.Ok? ==> r == Ok(false) && server.store == old(server.store)
      ensures |fields| == |values| && fields != [] && r.Ok? && up ==>
        var (v, reply) := Exec(sem, old(Seen()), ["HMSET", key] + Interleave(fields, values));
        Seen() == v && (r.value <==> SaysOk(reply))
      ensures OutsideKept(Prefix(bid), old(server.store), server.store)
    {
      if |fields| != |values| {
        return Ok(false);
      }
      if |fields| == 0 {
        return Ok(false);
      }
      var c := HmsetCommand(key, fields, values);
      if c.Thrown? {
        return Thrown;
      }
      HashSpellings();
      var rep := RedisCommand(sem, c.value, up);
      SaysOkIff(rep);
      return Ok(StrOf(rep) == "OK");
    }

    /** hgetall: appends the fields and the values of the reply to the caller's lists. */
    method Hgetall(sem: Semantics, key: string, fields0: seq<string>, values0: seq<string>, up: bool)
      returns (ok: bool, fields: seq<string>, values: seq<string>)
      modifies server
      ensures !up ==> !ok && server.store == old(server.store)
      ensures OutsideKept(Prefix(bid), old(server.store), server.store)
      ensures !ok ==> fields == fields0 && values == values0
      ensures up ==>
        var (v, reply) := Exec(sem, old(Seen()), ["HGETALL", key]);
        && Seen() == v && ok == !IsError(reply)
        && var e := Strs(ElementsOf(reply));
           ok ==> fields == fields0 + EverySecond(e, 0) && values == values0 + EverySecond(e, 1)
    {
      HashSpellings();
      var rep := RedisCommand(sem, ["HGETALL", key], up);
      fields, values := fields0, values0;
      if IsError(rep) {
        return false, fields, values;
      }
      fields, values := SplitPairs(ElementsOf(rep), fields0, values0);
      return true, fields, values;
    }

    /** hgetall's loop over the reply's elements. */
    method SplitPairs(e: seq<Reply>, fields0: seq<string>, values0: seq<string>)
      returns (fields: seq<string>, values: seq<string>)
      ensures fields == fields0 + EverySecond(Strs(e), 0) && values == values0 + EverySecond(Strs(e), 1)
    {
      fields, values := fields0, values0;
      ghost var fs, vs := EverySecond(Strs(e), 0), EverySecond(Strs(e), 1);
      ghost var k := 0;
      var i := 1;
      while i < |e|
        invariant i == 2 * k + 1 && k <= |e| / 2
        invariant fields == fields0 + fs[..k] && values == values0 + vs[..k]
      {
        fields := fields + [StrOf(e[i-1])];
        values := values + [StrOf(e[i])];
        assert fs[..k+1] == fs[..k] + [fs[k]] && vs[..k+1] == vs[..k] + [vs[k]];
        i := i + 2;
        k := k + 1;
      }
      assert fs[..k] == fs && vs[..k] == vs;
    }
  }

  lemma InterleaveStep(f: seq<string>, v: seq<string>, i: nat)
    requires i < |f| == |v|
    ensures Interleave(f[..i+1], v[..i+1]) == Interleave(f[..i], v[..i]) + [f[i], v[i]]
  {
    assert f[..i+1][..i] == f[..i] && v[..i+1][..i] == v[..i];
  }

  lemma HashSpellings()
    ensures Lower("HMSET") == "hmset" && Lower("HGETALL") == "hgetall"
  {
  }

  /** What mset wrote, mget reads back. */
  method MsetThenMget(client: CodisClient, sem: Semantics, keys: seq<string>, values: seq<string>)
    returns (got: seq<string>)
    requires |keys| == |values| > 0 && forall i, j | 0 <= i < j < |keys| :: keys[i] != keys[j]
    requires forall i | 0 <= i < |values| :: |values[i]| <= MAX_VALUE
    modifies client.server
    ensures got == values
  {
    var r := client.Mset(sem, keys, values, true);
    got := client.Mget(sem, keys, true);
  }
}
