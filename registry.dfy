/**
 * The relay's connection registry: a JavaScript `Map` from a socket to the
 * room and display name it joined with. A `Map` iterates in insertion order,
 * `set` on a present key overwrites the value in place and `delete` removes
 * the one entry for its key, so the registry is modelled as an association
 * list with distinct keys, kept in insertion order.
 */
module Registry {

  datatype Option<T> = None | Some(value: T)

  /** A connection, known only by its identity (the transport handle). */
  datatype Socket = Socket(id: nat)

  /** What the registry records for a joined socket: `{room, username}`. */
  datatype Info = Info(room: string, username: string)

  /** The registry's entries, in the order the map iterates them. */
  type Entries = seq<(Socket, Info)>

  /** The sockets of the registry, in iteration order. */
  function Keys(e: Entries): seq<Socket>
  {
    seq(|e|, k requires 0 <= k < |e| => e[k].0)
  }

  /** A map holds each key at most once. */
  predicate NoDupKeys(e: Entries)
  {
    forall j, k :: 0 <= j < k < |e| ==> e[j].0 != e[k].0
  }

  /** `Map.get`: the info of the first (with NoDupKeys, the only) entry for `s`. */
  function Get(e: Entries, s: Socket): (r: Option<Info>)
    ensures r.Some? ==> (s, r.value) in e
    ensures r.None? ==> forall p :: p in e ==> p.0 != s
  {
    if e == [] then None
    else if e[0].0 == s then Some(e[0].1)
    else Get(e[1..], s)
  }

  /** `Map.set`: overwrite the entry for `s` where it stands, or append one. */
  function Set(e: Entries, s: Socket, info: Info): (r: Entries)
    ensures (s, info) in r
    ensures |r| == if Get(e, s).None? then |e| + 1 else |e|
  {
    if e == [] then [(s, info)]
    else if e[0].0 == s then [(s, info)] + e[1..]
    else [e[0]] + Set(e[1..], s, info)
  }

  /** `Map.delete`: remove the entry for `s`, if there is one. */
  function Delete(e: Entries, s: Socket): (r: Entries)
    ensures forall p :: p in r ==> p in e
    ensures |r| == if Get(e, s).None? then |e| else |e| - 1
  {
    if e == [] then []
    else if e[0].0 == s then e[1..]
    else [e[0]] + Delete(e[1..], s)
  }

  /** Where a present socket's entry stands: the first index holding that key. */
  function IndexOf(e: Entries, s: Socket): (k: nat)
    requires Get(e, s).Some?
    ensures k < |e| && e[k].0 == s && Get(e, s) == Some(e[k].1)
    ensures forall j :: 0 <= j < k ==> e[j].0 != s
  {
    if e[0].0 == s then 0 else 1 + IndexOf(e[1..], s)
  }

  lemma KeysTail(e: Entries)
    requires e != []
    ensures Keys(e) == [e[0].0] + Keys(e[1..])
  {
  }

  /** `get` finds nothing exactly when the socket is not a key. */
  lemma {:induction false} GetNoneIff(e: Entries, s: Socket)
    ensures Get(e, s) == None <==> s !in Keys(e)
  {
    if e != [] {
      KeysTail(e);
      GetNoneIff(e[1..], s);
    }
  }

  /** With distinct keys, `get` returns exactly the info stored beside the socket. */
  lemma {:induction false} GetIn(e: Entries, s: Socket, info: Info)
    requires NoDupKeys(e)
    ensures Get(e, s) == Some(info) <==> (s, info) in e
  {
    if e != [] {
      assert NoDupKeys(e[1..]);
      GetIn(e[1..], s, info);
      if e[0].0 == s {
        assert forall k :: 0 <= k < |e[1..]| ==> e[1..][k].0 != s;
        assert (s, info) !in e[1..];
      }
      assert (s, info) in e <==> e[0] == (s, info) || (s, info) in e[1..];
    }
  }

  /** After `set(s, info)`, `s` maps to `info` and every other socket is unchanged. */
  lemma {:induction false} SetGet(e: Entries, s: Socket, info: Info, t: Socket)
    ensures Get(Set(e, s, info), t) == if t == s then Some(info) else Get(e, t)
  {
    if e != [] && e[0].0 != s {
      SetGet(e[1..], s, info, t);
    }
  }

  /**
   * `set` keeps the key order: an existing key keeps its position, a new key
   * goes last.
   */
  lemma {:induction false} SetKeys(e: Entries, s: Socket, info: Info)
    ensures Keys(Set(e, s, info)) == if s in Keys(e) then Keys(e) else Keys(e) + [s]
  {
    if e == [] {
    } else {
      KeysTail(e);
      KeysTail(Set(e, s, info));
      if e[0].0 != s {
        SetKeys(e[1..], s, info);
        assert Set(e, s, info)[1..] == Set(e[1..], s, info);
      } else {
        assert Set(e, s, info)[1..] == e[1..];
      }
    }
  }

  /**
   * `set` on a present key replaces that one entry where it stands; on an
   * absent key it appends.
   */
  lemma {:induction false} SetInPlace(e: Entries, s: Socket, info: Info)
    ensures Get(e, s).None? ==> Set(e, s, info) == e + [(s, info)]
    ensures Get(e, s).Some? ==> Set(e, s, info) == e[IndexOf(e, s) := (s, info)]
  {
    if e != [] && e[0].0 != s {
      SetInPlace(e[1..], s, info);
      if Get(e, s).Some? {
        assert e[IndexOf(e, s) := (s, info)] == [e[0]] + e[1..][IndexOf(e[1..], s) := (s, info)];
      } else {
        assert e + [(s, info)] == [e[0]] + (e[1..] + [(s, info)]);
      }
    }
  }

  lemma {:induction false} SetNoDupKeys(e: Entries, s: Socket, info: Info)
    requires NoDupKeys(e)
    ensures NoDupKeys(Set(e, s, info))
  {
    SetKeys(e, s, info);
    var r := Set(e, s, info);
    forall j, k | 0 <= j < k < |r| ensures r[j].0 != r[k].0 {
      assert Keys(r)[j] == r[j].0 && Keys(r)[k] == r[k].0;
      if s !in Keys(e) && k == |e| {
        assert Keys(e)[j] == r[j].0;
      } else {
        assert Keys(e)[j] == e[j].0 && Keys(e)[k] == e[k].0;
      }
    }
  }

  /** `delete` of a socket with no entry leaves the registry as it is. */
  lemma {:induction false} DeleteAbsent(e: Entries, s: Socket)
    requires Get(e, s) == None
    ensures Delete(e, s) == e
  {
    if e != [] {
      DeleteAbsent(e[1..], s);
    }
  }

  /** `delete(s)` leaves every other socket's entry as it was. */
  lemma {:induction false} DeleteGetOther(e: Entries, s: Socket, t: Socket)
    requires t != s
    ensures Get(Delete(e, s), t) == Get(e, t)
  {
    if e != [] && e[0].0 != s {
      DeleteGetOther(e[1..], s, t);
    }
  }

  /** With distinct keys, after `delete(s)` the socket has no entry and nothing else changed. */
  lemma {:induction false} DeleteGet(e: Entries, s: Socket, t: Socket)
    requires NoDupKeys(e)
    ensures Get(Delete(e, s), t) == if t == s then None else Get(e, t)
  {
    if t != s {
      DeleteGetOther(e, s, t);
    } else if e != [] {
      assert NoDupKeys(e[1..]);
      if e[0].0 == s {
        KeysTail(e);
        assert s !in Keys(e[1..]) by {
          forall k | 0 <= k < |e[1..]| ensures Keys(e[1..])[k] != s {
            assert e[1..][k] == e[k + 1];
          }
        }
        GetNoneIff(e[1..], s);
      } else {
        DeleteGet(e[1..], s, t);
      }
    }
  }

  /**
   * `delete` on a present key takes out that one entry and keeps the others
   * in their order.
   */
  lemma {:induction false} DeleteInPlace(e: Entries, s: Socket)
    requires Get(e, s).Some?
    ensures Delete(e, s) == e[..IndexOf(e, s)] + e[IndexOf(e, s) + 1..]
  {
    if e[0].0 == s {
      assert e[..0] == [];
    } else {
      DeleteInPlace(e[1..], s);
      var k := IndexOf(e[1..], s);
      var t := e[1..];
      assert Delete(e, s) == [e[0]] + (t[..k] + t[k + 1..]);
      assert [e[0]] + t[..k] == e[..k + 1];
      assert t[k + 1..] == e[k + 2..];
    }
  }

  /** Removing an entry keeps the keys distinct. */
  lemma {:induction false} DeleteNoDupKeys(e: Entries, s: Socket)
    requires NoDupKeys(e)
    ensures NoDupKeys(Delete(e, s))
  {
    if e != [] {
      assert NoDupKeys(e[1..]);
      if e[0].0 != s {
        DeleteNoDupKeys(e[1..], s);
        DeleteKeysSubset(e[1..], s);
        var r := Delete(e, s);
        forall j, k | 0 <= j < k < |r| ensures r[j].0 != r[k].0 {
          if j == 0 {
            assert r[k] == Delete(e[1..], s)[k - 1];
            assert r[k].0 in Keys(e[1..]) by {
              assert Keys(Delete(e[1..], s))[k - 1] == r[k].0;
            }
            var m :| 0 <= m < |e[1..]| && Keys(e[1..])[m] == r[k].0;
            assert e[m + 1].0 == r[k].0;
          } else {
            assert r[j] == Delete(e[1..], s)[j - 1] && r[k] == Delete(e[1..], s)[k - 1];
          }
        }
      }
    }
  }

  lemma {:induction false} DeleteKeysSubset(e: Entries, s: Socket)
    ensures forall t :: t in Keys(Delete(e, s)) ==> t in Keys(e)
  {
    if e != [] {
      KeysTail(e);
      DeleteKeysSubset(e[1..], s);
      if e[0].0 != s {
        KeysTail(Delete(e, s));
        assert Delete(e, s)[1..] == Delete(e[1..], s);
      }
    }
  }

  /** A second `delete` of the same socket changes nothing. */
  lemma DeleteIdempotent(e: Entries, s: Socket)
    requires NoDupKeys(e)
    ensures Delete(Delete(e, s), s) == Delete(e, s)
  {
    DeleteGet(e, s, s);
    DeleteAbsent(Delete(e, s), s);
  }
}
