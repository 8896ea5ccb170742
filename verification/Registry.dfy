/**
 The command registry. Each command file registers itself from a constructor that runs
 before main, in an order the linker chooses, by putting its node in front of the list.
 */
module Registry {
  import opened Options

  datatype Builtin = Builtin(name: string, nick: string)

  predicate Answers(b: Builtin, key: string) {
    b.name == key || b.nick == key
  }

  /** exec's search: the first node that answers to the key. */
  function Lookup(list: seq<Builtin>, key: string): Option<Builtin> {
    if list == [] then None
    else if Answers(list[0], key) then Some(list[0])
    else Lookup(list[1..], key)
  }

  /** The list after the constructors have run in the order of `order`. */
  function Registered(order: seq<Builtin>): (list: seq<Builtin>)
    ensures |list| == |order|
  {
    if order == [] then [] else Registered(order[1..]) + [order[0]]
  }

  /** The constructors, one after another, and the search that exec makes. */
  method Dispatch(order: seq<Builtin>, key: string) returns (found: Option<Builtin>)
    ensures found == Lookup(Registered(order), key)
  {
    var list := [];
    var i := 0;
    while i < |order|
      invariant i <= |order| && Registered(order) == Registered(order[i..]) + list
    {
      assert order[i..][1..] == order[i + 1..];
      list := [order[i]] + list;
      i := i + 1;
    }
    assert Registered(order) == list;
    i := 0;
    while i < |list|
      invariant i <= |list| && Lookup(Registered(order), key) == Lookup(list[i..], key)
    {
      if Answers(list[i], key) {
        return Some(list[i]);
      }
      assert list[i..][1..] == list[i + 1..];
      i := i + 1;
    }
    found := None;
  }

  /** No non-empty key is answered by two different nodes. */
  ghost predicate Unambiguous(list: seq<Builtin>) {
    forall b, b', key | b in list && b' in list && key != "" && Answers(b, key) && Answers(b', key) :: b == b'
  }

  lemma {:induction false} RegisteredMembers(order: seq<Builtin>)
    ensures multiset(Registered(order)) == multiset(order)
  {
    if order == [] {
    } else {
      RegisteredMembers(order[1..]);
      assert order == [order[0]] + order[1..];
    }
  }

  lemma {:induction false} LookupFinds(list: seq<Builtin>, key: string)
    ensures Lookup(list, key).Some? ==> Lookup(list, key).value in list && Answers(Lookup(list, key).value, key)
    ensures Lookup(list, key).None? ==> forall b | b in list :: !Answers(b, key)
  {
    if list == [] {
    } else if !Answers(list[0], key) {
      LookupFinds(list[1..], key);
      assert list == [list[0]] + list[1..];
    }
  }

  lemma SameMembers(order: seq<Builtin>, order': seq<Builtin>)
    requires multiset(order) == multiset(order')
    ensures forall b :: b in Registered(order') <==> b in order
  {
    RegisteredMembers(order');
    forall b
      ensures b in Registered(order') <==> b in order
    {
      assert b in Registered(order') <==> b in multiset(Registered(order'));
      assert b in order <==> b in multiset(order);
    }
  }

  /** Whatever order the constructors run in, a key that at most one node answers to finds that node, or none. */
  lemma OneAnswer(order: seq<Builtin>, order': seq<Builtin>, key: string)
    requires multiset(order) == multiset(order')
    requires forall b, b' | b in order && b' in order && Answers(b, key) && Answers(b', key) :: b == b'
    ensures Lookup(Registered(order), key) == Lookup(Registered(order'), key)
  {
    SameMembers(order, order);
    SameMembers(order, order');
    LookupFinds(Registered(order), key);
    LookupFinds(Registered(order'), key);
  }

  /** So a non-empty key finds the same command, or none, in every order. */
  lemma OrderDoesNotMatter(order: seq<Builtin>, order': seq<Builtin>, key: string)
    requires multiset(order) == multiset(order') && Unambiguous(order) && key != ""
    ensures Lookup(Registered(order), key) == Lookup(Registered(order'), key)
  {
    OneAnswer(order, order', key);
  }

  // ----- when the order does matter

  /** The same nodes, node `i` registered last. */
  function WithLast(order: seq<Builtin>, i: nat): (order': seq<Builtin>)
    requires i < |order|
    ensures multiset(order') == multiset(order)
  {
    assert order == order[..i] + [order[i]] + order[i + 1..];
    order[..i] + order[i + 1..] + [order[i]]
  }

  /** The list begins with the node that was registered last. */
  lemma {:induction false} LastComesFirst(order: seq<Builtin>)
    requires order != []
    ensures Registered(order)[0] == order[|order| - 1]
  {
    if |order| > 1 {
      LastComesFirst(order[1..]);
    }
  }

  /** A node that answers to the key is the one found if it is registered last. */
  lemma LastIsFound(order: seq<Builtin>, i: nat, key: string)
    requires i < |order| && Answers(order[i], key)
    ensures Lookup(Registered(WithLast(order, i)), key) == Some(order[i])
  {
    LastComesFirst(WithLast(order, i));
  }

  /** What a key finds, in every order of registration. */
  ghost predicate OrderFree(order: seq<Builtin>, key: string) {
    forall order' | multiset(order') == multiset(order) ::
      Lookup(Registered(order'), key) == Lookup(Registered(order), key)
  }

  /** A key finds the same in every order exactly when no two different nodes answer to it. */
  lemma OrderFreeExactlyWhen(order: seq<Builtin>, key: string)
    ensures OrderFree(order, key) <==>
            forall b, b' | b in order && b' in order && Answers(b, key) && Answers(b', key) :: b == b'
  {
    if OrderFree(order, key) {
      forall b, b' | b in order && b' in order && Answers(b, key) && Answers(b', key)
        ensures b == b'
      {
        var i :| 0 <= i < |order| && order[i] == b;
        var j :| 0 <= j < |order| && order[j] == b';
        LastIsFound(order, i, key);
        LastIsFound(order, j, key);
      }
    }
    if forall b, b' | b in order && b' in order && Answers(b, key) && Answers(b', key) :: b == b' {
      forall order' | multiset(order') == multiset(order)
        ensures Lookup(Registered(order'), key) == Lookup(Registered(order), key)
      {
        OneAnswer(order, order', key);
      }
    }
  }

  /** With two nodes that have no nickname, and names otherwise apart, that is every key but the empty one. */
  lemma OrderFreeButEmpty(order: seq<Builtin>, i: nat, j: nat, key: string)
    requires Unambiguous(order) && i < |order| && j < |order|
    requires order[i] != order[j] && order[i].nick == "" == order[j].nick
    ensures OrderFree(order, key) <==> key != ""
  {
    OrderFreeExactlyWhen(order, key);
    assert order[i] in order && order[j] in order;
  }

  // ----- the commands that register

  const BUILTINS: seq<Builtin> := [
    Builtin("break", "b"), Builtin("cont", "c"), Builtin("delete", ""), Builtin("disasm", "d"), Builtin("dump", "x"),
    Builtin("exit", "q"), Builtin("get", "g"), Builtin("getregs", ""), Builtin("help", "h"), Builtin("list", "l"),
    Builtin("load", ""), Builtin("run", "r"), Builtin("set", "s"), Builtin("si", ""), Builtin("start", ""),
    Builtin("vmmap", "m")]

  /** A number that tells the commands' names and nicknames apart. */
  function Digest(key: string): int {
    if |key| < 2 then if key == "" then 0 else key[0] as int
    else 1_000_000 * |key| + 1000 * (key[0] as int) + key[1] as int
  }

  const NAME_DIGESTS: seq<int> := [
    5098114, 4099111, 6100101, 6100105, 4100117, 4101120, 3103101, 7103101, 4104101, 4108105, 4108111, 3114117, 3115101,
    2115105, 5115116, 5118109]

  const NICK_DIGESTS: seq<int> := [98, 99, 0, 100, 120, 113, 103, 0, 104, 108, 0, 114, 115, 0, 0, 109]

  lemma BuiltinDigests(i: nat)
    requires i < |BUILTINS|
    ensures |BUILTINS[i].name| >= 2 && |BUILTINS[i].nick| <= 1
    ensures Digest(BUILTINS[i].name) == NAME_DIGESTS[i] && Digest(BUILTINS[i].nick) == NICK_DIGESTS[i]
  {
  }

  lemma DigestsApart(i: nat, j: nat)
    requires i < |BUILTINS| && j < |BUILTINS| && i != j
    ensures NAME_DIGESTS[i] != NAME_DIGESTS[j]
    ensures NICK_DIGESTS[i] != NICK_DIGESTS[j] || NICK_DIGESTS[i] == 0
  {
  }

  lemma OneCommandPerKey(i: nat, j: nat, key: string)
    requires i < |BUILTINS| && j < |BUILTINS| && key != ""
    requires Answers(BUILTINS[i], key) && Answers(BUILTINS[j], key)
    ensures i == j
  {
    BuiltinDigests(i);
    BuiltinDigests(j);
    if i != j {
      DigestsApart(i, j);
    }
  }

  /** The sixteen commands of the debugger can be told apart by every key they answer to. */
  lemma BuiltinsUnambiguous()
    ensures Unambiguous(BUILTINS)
  {
    var list := BUILTINS;
    forall b, b', key | b in list && b' in list && key != "" && Answers(b, key) && Answers(b', key)
      ensures b == b'
    {
      var i :| 0 <= i < |list| && list[i] == b;
      var j :| 0 <= j < |list| && list[j] == b';
      OneCommandPerKey(i, j, key);
    }
  }

  /** Each of the commands is found by its name and by its nickname, if it has one. */
  lemma BuiltinFound(order: seq<Builtin>, i: nat)
    requires multiset(order) == multiset(BUILTINS) && i < |BUILTINS|
    ensures Lookup(Registered(order), BUILTINS[i].name) == Some(BUILTINS[i])
    ensures BUILTINS[i].nick != "" ==> Lookup(Registered(order), BUILTINS[i].nick) == Some(BUILTINS[i])
  {
    BuiltinDigests(i);
    OnlyAnswer(BUILTINS, order, BUILTINS[i], BUILTINS[i].name);
    if BUILTINS[i].nick != "" {
      OnlyAnswer(BUILTINS, order, BUILTINS[i], BUILTINS[i].nick);
    }
  }

  lemma OnlyAnswer(list: seq<Builtin>, order: seq<Builtin>, b: Builtin, key: string)
    requires list == BUILTINS && multiset(order) == multiset(list) && b in list
    requires key != "" && (key == b.name || key == b.nick)
    ensures Lookup(Registered(order), key) == Some(b)
  {
    BuiltinsUnambiguous();
    SameMembers(list, order);
    LookupFinds(Registered(order), key);
    assert Answers(b, key);
  }

  /** `delete` and `getregs` are two of the commands that have no nickname. */
  lemma TwoWithoutNickname()
    ensures BUILTINS[2] != BUILTINS[7] && BUILTINS[2].nick == "" == BUILTINS[7].nick
  {
    assert BUILTINS[2].name[0] == 'd' && BUILTINS[7].name[0] == 'g';
  }

  /** So exec finds the same command however the program was linked, for every key but the empty one. */
  lemma BuiltinsOrderFree(key: string)
    ensures OrderFree(BUILTINS, key) <==> key != ""
  {
    BuiltinsUnambiguous();
    TwoWithoutNickname();
    OrderFreeButEmpty(BUILTINS, 2, 7, key);
  }
}
