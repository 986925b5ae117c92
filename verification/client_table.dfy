/**
  The server's `clients` dictionary (A3/Server.py): client socket to panda name, in insertion order,
  as Python dictionaries keep it.
 */
module ClientTable {
  import opened Wrappers

  /** A client socket. */
  type ConnId = nat

  /** The dictionary as its `items()`, in insertion order. */
  type Table = seq<(ConnId, string)>

  /** The sockets, in `items()` order. */
  function Keys(t: Table): seq<ConnId> {
    if t == [] then [] else [t[0].0] + Keys(t[1..])
  }

  /** `clients.values()`, in insertion order. */
  function Values(t: Table): seq<string> {
    if t == [] then [] else [t[0].1] + Values(t[1..])
  }

  /** A dictionary holds each key once. */
  ghost predicate Distinct(t: Table) {
    forall i, j :: 0 <= i < j < |t| ==> t[i].0 != t[j].0
  }

  /** `clients.get(c)` */
  function Lookup(t: Table, c: ConnId): Option<string> {
    if t == [] then None
    else if t[0].0 == c then Some(t[0].1)
    else Lookup(t[1..], c)
  }

  /** `clients[c] = name`: a present key keeps its place and takes the new name; a new key goes last. */
  function Put(t: Table, c: ConnId, name: string): Table {
    if t == [] then [(c, name)]
    else if t[0].0 == c then [(c, name)] + t[1..]
    else [t[0]] + Put(t[1..], c, name)
  }

  /** `if c in clients: del clients[c]`: a missing key leaves the dictionary as it was. */
  function Remove(t: Table, c: ConnId): Table {
    if t == [] then []
    else if t[0].0 == c then Remove(t[1..], c)
    else [t[0]] + Remove(t[1..], c)
  }

  /** A key is found exactly when it is one of the keys. */
  lemma {:induction false} LookupKeys(t: Table, c: ConnId)
    ensures Lookup(t, c).Some? <==> c in Keys(t)
  {
    if t != [] {
      LookupKeys(t[1..], c);
    }
  }

  /** After `clients[c] = name` the key `c` holds `name` and every other key holds what it held. */
  lemma {:induction false} PutLookup(t: Table, c: ConnId, name: string, x: ConnId)
    ensures Lookup(Put(t, c, name), x) == if x == c then Some(name) else Lookup(t, x)
  {
    if t != [] && t[0].0 != c {
      PutLookup(t[1..], c, name, x);
    }
  }

  /** Assignment keeps the order of the keys and appends a new key at the end. */
  lemma {:induction false} PutKeys(t: Table, c: ConnId, name: string)
    ensures Keys(Put(t, c, name)) == if c in Keys(t) then Keys(t) else Keys(t) + [c]
  {
    if t != [] {
      PutKeys(t[1..], c, name);
    }
  }

  /** The names the grove reply lists after a new client registers end with its name. */
  lemma {:induction false} PutValuesFresh(t: Table, c: ConnId, name: string)
    requires c !in Keys(t)
    ensures Values(Put(t, c, name)) == Values(t) + [name]
  {
    if t != [] {
      PutValuesFresh(t[1..], c, name);
    }
  }

  /** The keys are the first components of the entries, in order. */
  lemma {:induction false} KeysAt(t: Table)
    ensures |Keys(t)| == |t| && forall i :: 0 <= i < |t| ==> Keys(t)[i] == t[i].0
  {
    if t != [] {
      KeysAt(t[1..]);
    }
  }

  /** Assignment keeps every key once. */
  lemma PutDistinct(t: Table, c: ConnId, name: string)
    requires Distinct(t)
    ensures Distinct(Put(t, c, name))
  {
    var t' := Put(t, c, name);
    PutKeys(t, c, name);
    KeysAt(t);
    KeysAt(t');
    forall i, j | 0 <= i < j < |t'| ensures t'[i].0 != t'[j].0 {
      assert Keys(t')[i] == t'[i].0 && Keys(t')[j] == t'[j].0;
    }
  }

  /** After `del clients[c]` nothing is found under `c` and every other key holds what it held. */
  lemma {:induction false} RemoveLookup(t: Table, c: ConnId, x: ConnId)
    ensures Lookup(Remove(t, c), x) == if x == c then None else Lookup(t, x)
  {
    if t != [] {
      RemoveLookup(t[1..], c, x);
    }
  }

  /** Removing a key that is not there changes nothing: the cleanup tolerates a client already gone. */
  lemma {:induction false} RemoveAbsent(t: Table, c: ConnId)
    requires c !in Keys(t)
    ensures Remove(t, c) == t
  {
    if t != [] {
      RemoveAbsent(t[1..], c);
    }
  }

  /** Removal is idempotent: the cleanup may run after the entry is already gone. */
  lemma {:induction false} RemoveTwice(t: Table, c: ConnId)
    ensures Remove(Remove(t, c), c) == Remove(t, c)
  {
    if t != [] {
      RemoveTwice(t[1..], c);
    }
  }

  /** Registering a new client and cleaning it up afterwards restores the dictionary. */
  lemma {:induction false} PutRemoveFresh(t: Table, c: ConnId, name: string)
    requires c !in Keys(t)
    ensures Remove(Put(t, c, name), c) == t
  {
    if t == [] {
    } else {
      PutRemoveFresh(t[1..], c, name);
    }
  }

  /** Removal keeps every key once and adds none. */
  lemma {:induction false} RemoveDistinct(t: Table, c: ConnId)
    requires Distinct(t)
    ensures Distinct(Remove(t, c))
    ensures forall k :: k in Keys(Remove(t, c)) ==> k in Keys(t)
  {
    if t != [] {
      assert Distinct(t[1..]) by {
        forall i, j | 0 <= i < j < |t[1..]| ensures t[1..][i].0 != t[1..][j].0 {
          assert t[1..][i] == t[i + 1] && t[1..][j] == t[j + 1];
        }
      }
      RemoveDistinct(t[1..], c);
      var r := Remove(t[1..], c);
      if t[0].0 != c {
        var r' := [t[0]] + r;
        KeysAt(r);
        KeysAt(t[1..]);
        forall i, j | 0 <= i < j < |r'| ensures r'[i].0 != r'[j].0 {
          if i == 0 {
            assert r'[j] == r[j - 1] && Keys(r)[j - 1] == r'[j].0;
            assert Keys(r)[j - 1] in Keys(r);
            assert r'[j].0 in Keys(t[1..]);
            var m :| 0 <= m < |t[1..]| && Keys(t[1..])[m] == r'[j].0;
            assert t[m + 1].0 == r'[j].0;
          } else {
            assert r'[i] == r[i - 1] && r'[j] == r[j - 1];
          }
        }
      }
    }
  }
}
