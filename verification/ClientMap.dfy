/**
 The client table (client_map.h, client_map.c): buckets of linked nodes plus an array of recycled
 nodes, proved to be a partial map from client ids to nodes that keep their identity.
 The peer address, which only the log reads, is not modelled.
 */
module ClientMap {
  import opened Base
  import opened ClientModel
  import opened Buckets
  import Bits
  import R = Recycling

  const FREE_INIT_LEN := 64

  class ClientInfo {
    var clientId: nat
    var clientFd: int
    var username: seq<byte>
    var next: ClientInfo?

    constructor ()
      ensures clientId == 0 && clientFd == 0 && username == [] && next == null
    {
      clientId, clientFd, username, next := 0, 0, [], null;
    }
  }

  type Nodes = map<nat, ClientInfo>

  // ---------------------------------------------------------------------- chains

  type Values = map<nat, Client>

  /** The node at position `j` of a chain, NULL past its end. */
  ghost function At(ks: seq<nat>, j: nat, nodes: Nodes): ClientInfo?
    requires forall i :: 0 <= i < |ks| ==> ks[i] in nodes
  {
    if j < |ks| then nodes[ks[j]] else null
  }

  /** The chain from `head` visits exactly the nodes of `ks`, in order, and ends. */
  ghost predicate Linked(head: ClientInfo?, ks: seq<nat>, nodes: Nodes, used: set<ClientInfo>)
    reads used
  {
    && (forall j :: 0 <= j < |ks| ==> ks[j] in nodes && nodes[ks[j]] in used)
    && head == At(ks, 0, nodes)
    && (forall j {:trigger nodes[ks[j]].next} :: 0 <= j < |ks| ==> nodes[ks[j]].next == At(ks, j + 1, nodes))
  }

  /** Keys and nodes in use correspond one to one, and each node holds its key and its value. */
  ghost predicate Keyed(nodes: Nodes, used: set<ClientInfo>, v: Values)
    reads used
  {
    && v.Keys == nodes.Keys
    && (forall k :: k in nodes ==>
          nodes[k] in used && nodes[k].clientId == k && v[k] == Client(nodes[k].clientFd, nodes[k].username))
    && (forall x :: x in used ==> x.clientId in nodes && nodes[x.clientId] == x)
  }

  ghost predicate Chained(buckets: array<ClientInfo?>, keys: seq<seq<nat>>, nodes: Nodes, used: set<ClientInfo>,
                          v: Values)
    reads buckets, used
  {
    var chained :=
      && |keys| == buckets.Length && KeysOk(keys, nodes.Keys) && Keyed(nodes, used, v)
      && (forall b {:trigger Linked(buckets[b], keys[b], nodes, used)} ::
            0 <= b < |keys| ==> Linked(buckets[b], keys[b], nodes, used));
    chained
  }

  lemma LinkedExtend(head: ClientInfo?, ks: seq<nat>, nodes: Nodes, used: set<ClientInfo>, id: nat, node: ClientInfo)
    requires Linked(head, ks, nodes, used) && id !in nodes
    ensures Linked(head, ks, nodes[id := node], used + {node})
  {
    var t := nodes[id := node];
    assert forall j: nat :: j <= |ks| ==> At(ks, j, t) == At(ks, j, nodes);
  }

  lemma LinkedPrepend(head: ClientInfo?, ks: seq<nat>, nodes: Nodes, used: set<ClientInfo>, id: nat)
    requires Linked(head, ks, nodes, used) && id in nodes && nodes[id] in used && nodes[id].next == head
    ensures Linked(nodes[id], [id] + ks, nodes, used)
  {
    var t := [id] + ks;
    assert forall j: nat :: 0 < j ==> At(t, j, nodes) == At(ks, j - 1, nodes);
  }

  lemma KeyedAdd(nodes: Nodes, used: set<ClientInfo>, v: Values, id: nat, node: ClientInfo)
    requires Keyed(nodes, used, v) && id !in nodes && node !in used
    requires node.clientId == id && node.clientFd == 0 && node.username == []
    ensures Keyed(nodes[id := node], used + {node}, v[id := Client(0, [])])
  {
  }

  lemma PrependChained(buckets: array<ClientInfo?>, keys: seq<seq<nat>>, nodes: Nodes, used: set<ClientInfo>, v: Values,
                       i: nat, oldHead: ClientInfo?, id: nat, node: ClientInfo)
    requires |keys| == buckets.Length && KeysOk(keys, nodes.Keys) && Keyed(nodes, used, v)
    requires id !in nodes && i == Hash(|keys|, id) && node !in used
    requires forall b :: 0 <= b < |keys| ==> Linked(if b == i then oldHead else buckets[b], keys[b], nodes, used)
    requires buckets[i] == node && node.next == oldHead
    requires node.clientId == id && node.clientFd == 0 && node.username == []
    ensures Chained(buckets, LinkedKeys(keys, id), nodes[id := node], used + {node}, v[id := Client(0, [])])
  {
    KeysAdd(keys, nodes.Keys, id);
    KeyedAdd(nodes, used, v, id, node);
    var t, m, u := LinkedKeys(keys, id), nodes[id := node], used + {node};
    assert m.Keys == nodes.Keys + {id};
    forall b | 0 <= b < |t| ensures Linked(buckets[b], t[b], m, u) {
      var head := if b == i then oldHead else buckets[b];
      LinkedExtend(head, keys[b], nodes, used, id, node);
      if b == i { LinkedPrepend(head, keys[b], m, u, id); }
    }
  }

  /** Zeroed data: a node from `client_map_add_free`, or a newly allocated one, which counts as zeroed. */
  ghost predicate Blank(node: ClientInfo)
    reads node
  {
    node.clientFd == 0 && node.username == []
  }

  /** Puts a blank node for a new key at the head of its bucket. */
  method Link(buckets: array<ClientInfo?>, node: ClientInfo, id: nat,
              ghost keys: seq<seq<nat>>, ghost nodes: Nodes, ghost used: set<ClientInfo>,
              ghost v: Values)
    requires Chained(buckets, keys, nodes, used, v) && node !in used && id !in nodes && Blank(node)
    modifies buckets, node`next, node`clientId
    ensures Chained(buckets, LinkedKeys(keys, id), nodes[id := node], used + {node}, v[id := Client(0, [])])
    ensures var i := Hash(buckets.Length, id); buckets[i] == node && node.next == old(buckets[i])
  {
    var i := Hash(buckets.Length, id);
    var oldHead := buckets[i];
    buckets[i] := node;
    node.next := oldHead;
    node.clientId := id;
    forall b | 0 <= b < |keys| ensures Linked(if b == i then oldHead else buckets[b], keys[b], nodes, used) {
      assert old(Linked(buckets[b], keys[b], nodes, used));
    }
    PrependChained(buckets, keys, nodes, used, v, i, oldHead, id, node);
  }

  /** Chains that do not hold the removed node are unaffected. */
  lemma LinkedShrink(head: ClientInfo?, ks: seq<nat>, nodes: Nodes, used: set<ClientInfo>, id: nat)
    requires Linked(head, ks, nodes, used) && id in nodes && id !in ks
    requires forall t :: 0 <= t < |ks| ==> nodes[ks[t]] != nodes[id]
    ensures Linked(head, ks, nodes - {id}, used - {nodes[id]})
  {
    var m := nodes - {id};
    assert forall t: nat :: t <= |ks| ==> At(ks, t, m) == At(ks, t, nodes);
  }

  /** The links of a chain after the node at `j` has been bypassed. */
  ghost predicate Bypassed(head: ClientInfo?, ks: seq<nat>, j: nat, nodes: Nodes, used: set<ClientInfo>)
    requires j < |ks|
    reads used
  {
    && (forall t :: 0 <= t < |ks| ==> ks[t] in nodes && nodes[ks[t]] in used)
    && head == (if j == 0 then At(ks, 1, nodes) else At(ks, 0, nodes))
    && (forall t {:trigger nodes[ks[t]].next} :: 0 <= t < |ks| && t != j ==>
          nodes[ks[t]].next == At(ks, if t + 1 == j then j + 1 else t + 1, nodes))
  }

  lemma LinkedCut(head: ClientInfo?, ks: seq<nat>, j: nat, nodes: Nodes, used: set<ClientInfo>)
    requires j < |ks| && NoDup(ks) && Bypassed(head, ks, j, nodes, used)
    requires forall t :: 0 <= t < |ks| && t != j ==> nodes[ks[t]] != nodes[ks[j]]
    ensures Linked(head, ks[..j] + ks[j + 1..], nodes - {ks[j]}, used - {nodes[ks[j]]})
  {
    var cut, m := ks[..j] + ks[j + 1..], nodes - {ks[j]};
    assert forall t: nat :: t <= |cut| ==> At(cut, t, m) == At(ks, if t < j then t else t + 1, nodes);
  }

  lemma KeyedRemove(nodes: Nodes, used: set<ClientInfo>, v: Values, id: nat)
    requires Keyed(nodes, used, v) && id in nodes
    ensures Keyed(nodes - {id}, used - {nodes[id]}, v - {id})
  {
  }

  lemma {:induction false} KeyedSize(nodes: Nodes, used: set<ClientInfo>, v: Values)
    requires Keyed(nodes, used, v)
    ensures |used| == |nodes.Keys|
    decreases nodes.Keys
  {
    if nodes.Keys != {} {
      var id :| id in nodes.Keys;
      KeyedRemove(nodes, used, v, id);
      var rest := nodes - {id};
      KeyedSize(rest, used - {nodes[id]}, v - {id});
      assert rest.Keys == nodes.Keys - {id};
    } else {
      assert used == {};
    }
  }

  lemma CutChained(buckets: array<ClientInfo?>, keys: seq<seq<nat>>, nodes: Nodes, used: set<ClientInfo>, v: Values,
                   i: nat, j: nat, id: nat)
    requires |keys| == buckets.Length && KeysOk(keys, nodes.Keys) && Keyed(nodes, used, v)
    requires i < |keys| && j < |keys[i]| && id == keys[i][j] && id in nodes
    requires forall b :: 0 <= b < |keys| && b != i ==> Linked(buckets[b], keys[b], nodes, used)
    requires Bypassed(buckets[i], keys[i], j, nodes, used)
    ensures Chained(buckets, UnlinkedKeys(keys, i, j), nodes - {id}, used - {nodes[id]}, v - {id})
  {
    assert BucketOk(keys[i], i, |keys|, nodes.Keys);
    KeysRemove(keys, nodes.Keys, i, j);
    KeyedRemove(nodes, used, v, id);
    var t, m, u := UnlinkedKeys(keys, i, j), nodes - {id}, used - {nodes[id]};
    assert m.Keys == nodes.Keys - {id};
    forall b | 0 <= b < |t| ensures Linked(buckets[b], t[b], m, u) {
      assert BucketOk(keys[b], b, |keys|, nodes.Keys);
      if b == i {
        LinkedCut(buckets[b], keys[b], j, nodes, used);
      } else {
        LinkedShrink(buckets[b], keys[b], nodes, used, id);
      }
    }
  }

  /** Deletion of the head of a chain. */
  method UnlinkHead(buckets: array<ClientInfo?>, i: nat, cur: ClientInfo, ghost id: nat,
                    ghost keys: seq<seq<nat>>, ghost nodes: Nodes, ghost used: set<ClientInfo>,
                     ghost v: Values)
    requires Chained(buckets, keys, nodes, used, v) && i < |keys| && 0 < |keys[i]|
    requires keys[i][0] == id && id in nodes && cur == nodes[id] && Linked(buckets[i], keys[i], nodes, used)
    modifies buckets
    ensures Chained(buckets, UnlinkedKeys(keys, i, 0), nodes - {id}, used - {cur}, v - {id})
  {
    buckets[i] := cur.next;
    forall b | 0 <= b < |keys| && b != i ensures Linked(buckets[b], keys[b], nodes, used) {
      assert old(Linked(buckets[b], keys[b], nodes, used));
    }
    CutChained(buckets, keys, nodes, used, v, i, 0, id);
  }

  /** Nodes of different chains are different. */
  lemma ChainsApart(keys: seq<seq<nat>>, nodes: Nodes, used: set<ClientInfo>, v: Values, b: nat, i: nat, p: nat)
    requires KeysOk(keys, nodes.Keys) && Keyed(nodes, used, v)
    requires b < |keys| && i < |keys| && b != i && p < |keys[i]| && keys[i][p] in nodes
    ensures forall t :: 0 <= t < |keys[b]| ==> keys[b][t] in nodes && nodes[keys[b][t]] != nodes[keys[i][p]]
  {
    assert BucketOk(keys[b], b, |keys|, nodes.Keys) && BucketOk(keys[i], i, |keys|, nodes.Keys);
  }

  /** Deletion of the node after `prev`. */
  method UnlinkAfter(buckets: array<ClientInfo?>, i: nat, prev: ClientInfo, cur: ClientInfo, ghost j: nat,
                     ghost id: nat, ghost keys: seq<seq<nat>>, ghost nodes: Nodes, ghost used: set<ClientInfo>,
                     ghost v: Values)
    requires Chained(buckets, keys, nodes, used, v) && i < |keys| && 0 < j < |keys[i]|
    requires keys[i][j] == id && id in nodes && cur == nodes[id] && Linked(buckets[i], keys[i], nodes, used)
    requires keys[i][j - 1] in nodes && prev == nodes[keys[i][j - 1]]
    modifies prev`next
    ensures Chained(buckets, UnlinkedKeys(keys, i, j), nodes - {id}, used - {cur}, v - {id})
  {
    ghost var ks := keys[i];
    assert BucketOk(ks, i, |keys|, nodes.Keys);
    prev.next := cur.next;
    forall b | 0 <= b < |keys| && b != i ensures Linked(buckets[b], keys[b], nodes, used) {
      assert old(Linked(buckets[b], keys[b], nodes, used));
      ChainsApart(keys, nodes, used, v, b, i, j - 1);
    }
    CutChained(buckets, keys, nodes, used, v, i, j, id);
  }

  /** Assigns the data of a node; the links do not change. */
  method Assign(buckets: array<ClientInfo?>, info: ClientInfo, fd: int, name: seq<byte>,
                ghost keys: seq<seq<nat>>, ghost nodes: Nodes, ghost used: set<ClientInfo>,
                     ghost v: Values)
    requires Chained(buckets, keys, nodes, used, v) && info in used
    modifies info`clientFd, info`username
    ensures Chained(buckets, keys, nodes, used, v[info.clientId := Client(fd, name)])
  {
    info.clientFd, info.username := fd, name;
    forall b | 0 <= b < |keys| ensures Linked(buckets[b], keys[b], nodes, used) {
      assert old(Linked(buckets[b], keys[b], nodes, used));
    }
    assert Keyed(nodes, used, v[info.clientId := Client(fd, name)]);
  }

  // --------------------------------------------------------------------- classes

  /** The `buckets` half of the table. */
  class Chains {
    const arr: array<ClientInfo?>

    /** The chains as keys, the node of each key, the nodes in use, and the map as a value. */
    ghost var Keys: seq<seq<nat>>
    ghost var N: Nodes
    ghost var Used: set<ClientInfo>
    ghost var V: Values

    ghost predicate Valid()
      reads this, arr, Used
    {
      Chained(arr, Keys, N, Used, V)
    }

    constructor (cap: nat)
      requires Bits.IsPow2(cap)
      ensures Valid() && fresh(arr) && arr.Length == cap && Used == {} && V == map[] && N == map[]
    {
      arr := new ClientInfo?[cap](_ => null);
      Keys := seq(cap, i => []);
      N, Used, V := map[], {}, map[];
    }

    /** `client_map_get`. */
    method Get(clientId: nat) returns (node: ClientInfo?)
      requires Valid()
      ensures node == if clientId in N then N[clientId] else null
    {
      var i := Hash(arr.Length, clientId);
      node := arr[i];
      ghost var ks, j := Keys[i], 0;
      assert Linked(arr[i], ks, N, Used);
      while node != null
        invariant 0 <= j <= |ks| && node == At(ks, j, N)
        invariant forall k :: 0 <= k < j ==> ks[k] != clientId
        decreases |ks| - j
      {
        if node.clientId == clientId { return; }
        node := node.next;
        j := j + 1;
      }
    }

    method Add(node: ClientInfo, clientId: nat)
      requires Valid() && node !in Used && clientId !in N && Blank(node)
      modifies this, arr, node`next, node`clientId
      ensures Valid() && Used == old(Used) + {node}
      ensures N == old(N)[clientId := node] && V == old(V)[clientId := Client(0, [])]
      ensures var i := Hash(arr.Length, clientId); arr[i] == node && node.next == old(arr[i])
    {
      ghost var keys, nodes, used, v := Keys, N, Used, V;
      Keys, N, Used, V := LinkedKeys(Keys, clientId), N[clientId := node], Used + {node}, V[clientId := Client(0, [])];
      Link(arr, node, clientId, keys, nodes, used, v);
    }

    /** The search of `client_map_delete`: the node, its position in the chain, and the node before it. */
    method Locate(i: nat, clientId: nat) returns (prev: ClientInfo?, cur: ClientInfo?, ghost j: nat)
      requires Valid() && i == Hash(arr.Length, clientId)
      ensures j <= |Keys[i]| && (var linked := Linked(arr[i], Keys[i], N, Used); linked)
      ensures cur == At(Keys[i], j, N) && prev == (if j == 0 then null else At(Keys[i], j - 1, N))
      ensures if clientId in N then j < |Keys[i]| && Keys[i][j] == clientId else j == |Keys[i]|
    {
      prev, cur, j := null, arr[i], 0;
      ghost var ks := Keys[i];
      assert Linked(arr[i], ks, N, Used) && BucketOk(ks, i, |Keys|, N.Keys);
      while cur != null && cur.clientId != clientId
        invariant 0 <= j <= |ks| && cur == At(ks, j, N)
        invariant prev == if j == 0 then null else At(ks, j - 1, N)
        invariant forall k :: 0 <= k < j ==> ks[k] != clientId
        decreases |ks| - j
      {
        prev, cur := cur, cur.next;
        j := j + 1;
      }
    }

    /** Deletion of the head of a chain. */
    method RemoveHead(i: nat, cur: ClientInfo, ghost id: nat)
      requires Valid() && i < |Keys| == arr.Length && 0 < |Keys[i]| && Keys[i][0] == id && id in N && cur == N[id]
      requires (var linked := Linked(arr[i], Keys[i], N, Used); linked)
      modifies this, arr
      ensures Valid() && N == old(N) - {id} && Used == old(Used) - {cur} && V == old(V) - {id}
    {
      ghost var keys, nodes, used, v := Keys, N, Used, V;
      Keys, N, Used, V := UnlinkedKeys(Keys, i, 0), N - {id}, Used - {cur}, V - {id};
      UnlinkHead(arr, i, cur, id, keys, nodes, used, v);
    }

    /** Deletion further down. */
    method RemoveAfter(i: nat, prev: ClientInfo, cur: ClientInfo, ghost j: nat, ghost id: nat)
      requires Valid() && i < |Keys| == arr.Length && 0 < j < |Keys[i]| && Keys[i][j] == id && id in N && cur == N[id]
      requires (var linked := Linked(arr[i], Keys[i], N, Used); linked)
      requires Keys[i][j - 1] in N && prev == N[Keys[i][j - 1]]
      modifies this, prev`next
      ensures Valid() && N == old(N) - {id} && Used == old(Used) - {cur} && V == old(V) - {id}
    {
      ghost var keys, nodes, used, v := Keys, N, Used, V;
      Keys, N, Used, V := UnlinkedKeys(Keys, i, j), N - {id}, Used - {cur}, V - {id};
      UnlinkAfter(arr, i, prev, cur, j, id, keys, nodes, used, v);
    }

    /** The unlinking part of `client_map_delete`; NULL if the key is absent. */
    method Remove(clientId: nat) returns (node: ClientInfo?)
      requires Valid()
      modifies this, arr, Used
      ensures Valid() && node == if clientId in old(N) then old(N)[clientId] else null
      ensures node == null ==> N == old(N) && V == old(V) && Used == old(Used)
      ensures node != null ==> N == old(N) - {clientId} && V == old(V) - {clientId} && Used == old(Used) - {node}
    {
      var i := Hash(arr.Length, clientId);
      var prev, cur, j := Locate(i, clientId);
      node := cur;
      if cur != null {
        if prev == null {
          RemoveHead(i, cur, clientId);
        } else {
          RemoveAfter(i, prev, cur, j, clientId);
        }
      }
    }

    /** The server's writes through a node pointer. */
    method Update(info: ClientInfo, clientFd: int, username: seq<byte>)
      requires Valid() && info in Used
      modifies this`V, info`clientFd, info`username
      ensures Valid() && N == old(N) && Used == old(Used) && V == old(V)[info.clientId := Client(clientFd, username)]
    {
      ghost var v := V;
      V := V[info.clientId := Client(clientFd, username)];
      Assign(arr, info, clientFd, username, Keys, N, Used, v);
    }
  }

  class ClientMap {
    const chains: Chains
    var freeLen: nat
    var free: array<ClientInfo?>

    /** The recycled nodes, in array order. */
    ghost var Spare: seq<ClientInfo>
    /** Keys in use and nodes spare, at the start and after every insertion and deletion. */
    ghost var History: seq<R.Shelf>
    ghost var Repr: set<object>

    ghost predicate Valid()
      reads this, Repr
    {
      && this in Repr && chains in Repr && chains.arr in Repr && free in Repr && chains.arr != free
      && chains.Used <= Repr && chains.Valid()
      && freeLen == |Spare| <= free.Length && 0 < free.Length && NoDup(Spare)
      && (forall i :: 0 <= i < |Spare| ==> free[i] == Spare[i])
      && (forall i :: 0 <= i < |Spare| ==> Spare[i] in Repr && Spare[i] !in chains.Used && Blank(Spare[i]))
    }

    /** The table as a value. */
    ghost function V(): map<nat, Client>
      reads this, chains
    {
      chains.V
    }

    /** Every node allocated: each in one chain or once among the recycled ones. */
    ghost function Held(): set<ClientInfo>
      reads this, chains
    {
      chains.Used + Elements(Spare)
    }

    /** The keys in use and the number of recycled nodes. */
    ghost function Shelf(): R.Shelf
      reads this, chains
    {
      R.Shelf(chains.N.Keys, |Spare|)
    }

    ghost predicate Tracked()
      reads this, chains
    {
      R.Tracks(History, Shelf())
    }

    /** Over the whole history, the nodes allocated equal the peak number of keys. */
    lemma NodesArePeak()
      requires Valid() && Tracked()
      ensures |Held()| == R.Peak(History)
    {
      NodeCount();
      R.TracksPeak(History, Shelf());
    }

    /** Nodes allocated: one for each key, and the recycled ones. */
    lemma NodeCount()
      requires Valid()
      ensures |Held()| == R.Total(Shelf())
    {
      KeyedSize(chains.N, chains.Used, chains.V);
      NoDupSize(Spare, Elements(Spare));
    }

    /** The node of each key. */
    ghost function Nodes(): map<nat, ClientInfo>
      reads this, chains
    {
      chains.N
    }

    /** `client_map_init`; a capacity that is not a power of two makes the source exit. */
    constructor (cap: nat)
      requires Bits.IsPow2(cap)
      ensures Valid() && fresh(Repr) && V() == map[] && Nodes() == map[] && Spare == [] && chains.arr.Length == cap
      ensures Tracked()
    {
      chains := new Chains(cap);
      freeLen := 0;
      free := new ClientInfo?[FREE_INIT_LEN](_ => null);
      Spare := [];
      History := [R.Shelf({}, 0)];
      new;
      Repr := {this, chains, chains.arr, free};
    }

    /** A recycled node if there is one - the first, the last moving into its place - else a new one. */
    method TakeNode() returns (node: ClientInfo)
      requires Valid()
      modifies this, free
      ensures Valid() && fresh(Repr - old(Repr)) && Spare == TakenFrom(old(Spare))
      ensures if old(Spare) == [] then fresh(node) else node == old(Spare)[0]
      ensures Elements(Spare) + {node} == old(Elements(Spare)) + {node}
      ensures node in Repr && node !in chains.Used && node !in Spare && Blank(node)
      ensures History == old(History)
    {
      if freeLen != 0 {
        node := free[0];
        TakenElements(Spare);
        free[0] := free[freeLen - 1];
        freeLen := freeLen - 1;
        Spare := TakenFrom(Spare);
      } else {
        node := new ClientInfo();
        Repr := Repr + {node};
      }
    }

    /** Links a blank node under a new key. */
    method LinkNode(node: ClientInfo, clientId: nat)
      requires Valid() && clientId !in Nodes()
      requires node in Repr && node !in chains.Used && node !in Spare && Blank(node)
      modifies chains, chains.arr, node`next, node`clientId
      ensures Valid() && Held() == old(Held()) + {node}
      ensures Nodes() == old(Nodes())[clientId := node] && V() == old(V())[clientId := Client(0, [])]
      ensures var i := Hash(chains.arr.Length, clientId); chains.arr[i] == node && node.next == old(chains.arr[i])
    {
      chains.Add(node, clientId);
    }

    method AddNew(clientId: nat) returns (info: ClientInfo)
      requires Valid() && clientId !in Nodes()
      modifies Repr
      ensures Valid() && fresh(Repr - old(Repr))
      ensures Nodes() == old(Nodes())[clientId := info] && V() == old(V())[clientId := Client(0, [])]
      ensures Spare == TakenFrom(old(Spare)) && Held() == old(Held()) + {info}
      ensures if old(Spare) == [] then fresh(info) else info == old(Spare)[0]
      ensures History == old(History)
      ensures var i := Hash(chains.arr.Length, clientId); chains.arr[i] == info && info.next == old(chains.arr[i])
    {
      info := TakeNode();
      LinkNode(info, clientId);
    }

    /** `client_map_new_entry`: fails if the key is there, else adds a node for it. */
    method NewEntry(clientId: nat) returns (info: ClientInfo?)
      requires Valid()
      modifies Repr
      ensures Valid() && fresh(Repr - old(Repr))
      ensures info == null <==> clientId in old(Nodes())
      ensures info == null ==> Nodes() == old(Nodes()) && V() == old(V()) && Spare == old(Spare)
      ensures info != null ==>
                && Nodes() == old(Nodes())[clientId := info] && V() == old(V())[clientId := Client(0, [])]
                && Spare == TakenFrom(old(Spare)) && Held() == old(Held()) + {info}
                && (if old(Spare) == [] then fresh(info) else info == old(Spare)[0])
      ensures info != null ==>
                var i := Hash(chains.arr.Length, clientId); chains.arr[i] == info && info.next == old(chains.arr[i])
      ensures old(Tracked()) ==> Tracked()
      ensures R.Follows(old(Shelf()), Shelf()) && History == old(History) + [Shelf()]
    {
      info := chains.Get(clientId);
      if info != null {
        Note(Shelf());
        return null;
      }
      ghost var was := Shelf();
      info := AddNew(clientId);
      assert R.Took(was, Shelf(), clientId);
      Note(was);
    }

    /** The next entry of the history. */
    ghost method Note(was: R.Shelf)
      requires Valid() && R.Follows(was, Shelf())
      modifies this`History
      ensures Valid() && History == old(History) + [Shelf()]
      ensures R.Tracks(old(History), was) ==> Tracked()
    {
      if R.Tracks(History, was) { R.TracksNext(History, was, Shelf()); }
      History := History + [Shelf()];
    }

    /** `client_map_get`. */
    method Get(clientId: nat) returns (info: ClientInfo?)
      requires Valid()
      ensures info == if clientId in Nodes() then Nodes()[clientId] else null
    {
      info := chains.Get(clientId);
    }

    /** Writes through a node pointer. */
    method Update(info: ClientInfo, clientId: nat, clientFd: int, username: seq<byte>)
      requires Valid() && clientId in Nodes() && Nodes()[clientId] == info
      modifies chains, info`clientFd, info`username
      ensures Valid() && Nodes() == old(Nodes()) && V() == old(V())[clientId := Client(clientFd, username)]
    {
      assert Keyed(chains.N, chains.Used, chains.V);
      chains.Update(info, clientFd, username);
    }

    lemma EntryIs(clientId: nat)
      requires Valid() && clientId in Nodes()
      ensures Nodes()[clientId] in Repr && clientId in V()
      ensures V()[clientId] == Client(Nodes()[clientId].clientFd, Nodes()[clientId].username)
    {
    }

    lemma SameKeys()
      requires Valid()
      ensures V().Keys == Nodes().Keys
    {
    }

    /** The bucket of a key that is there is not empty. */
    lemma BucketNotEmpty(clientId: nat)
      requires Valid() && clientId in Nodes()
      ensures chains.arr[Hash(chains.arr.Length, clientId)] != null
    {
      var i := Hash(chains.arr.Length, clientId);
      assert Linked(chains.arr[i], chains.Keys[i], chains.N, chains.Used);
    }

    /** Doubles the array of recycled nodes if it is full. */
    method EnsureFreeRoom()
      requires Valid()
      modifies this
      ensures Valid() && fresh(Repr - old(Repr)) && old(Repr) <= Repr
      ensures (free == old(free) || fresh(free)) && Spare == old(Spare)
      ensures freeLen < free.Length
      ensures History == old(History)
    {
      if freeLen == free.Length {
        var bigger := new ClientInfo?[2 * free.Length](_ => null);
        forall i | 0 <= i < freeLen { bigger[i] := free[i]; }
        free := bigger;
        Repr := Repr + {bigger};
      }
    }

    /** Appends a zeroed node to the array of recycled ones. */
    method PushFree(info: ClientInfo)
      requires Valid() && info in Repr && info !in chains.Used && info !in Spare && Blank(info) && freeLen < free.Length
      modifies this, free
      ensures Valid() && Repr == old(Repr) && Spare == old(Spare) + [info]
      ensures History == old(History)
    {
      free[freeLen] := info;
      freeLen := freeLen + 1;
      Spare := Spare + [info];
    }

    /** `client_map_add_free`: zeroes a node that no chain holds and keeps it for reuse. */
    method AddFree(info: ClientInfo)
      requires Valid() && info in Repr && info !in chains.Used && info !in Spare
      modifies this, free, info
      ensures Valid() && fresh(Repr - old(Repr)) && Spare == old(Spare) + [info]
      ensures History == old(History)
    {
      info.clientId, info.clientFd, info.username, info.next := 0, 0, [], null;
      EnsureFreeRoom();
      PushFree(info);
    }

    /** The unlinked node is in no chain and not among the recycled ones. */
    method Unlink(clientId: nat) returns (node: ClientInfo?)
      requires Valid()
      modifies chains, chains.arr, chains.Used
      ensures Valid() && node == if clientId in old(Nodes()) then old(Nodes())[clientId] else null
      ensures node == null ==> Nodes() == old(Nodes()) && V() == old(V())
      ensures node != null ==> Nodes() == old(Nodes()) - {clientId} && V() == old(V()) - {clientId}
      ensures node != null ==>
                && node in Repr && node !in Spare && node in old(chains.Used)
                && chains.Used == old(chains.Used) - {node}
    {
      node := chains.Remove(clientId);
    }

    /** Deletion, apart from the history. */
    method TakeOut(clientId: nat) returns (found: bool)
      requires Valid()
      modifies Repr
      ensures Valid() && fresh(Repr - old(Repr)) && History == old(History)
      ensures found <==> clientId in old(Nodes())
      ensures !found ==> Nodes() == old(Nodes()) && V() == old(V()) && Spare == old(Spare)
      ensures found ==>
                && Nodes() == old(Nodes()) - {clientId} && V() == old(V()) - {clientId}
                && Spare == old(Spare) + [old(Nodes())[clientId]] && Held() == old(Held())
    {
      var node := Unlink(clientId);
      found := node != null;
      if found {
        AddFree(node);
      }
    }

    /**
     `client_map_delete`: takes the node of the key out of its chain and recycles it. The source reads the
     head of the bucket without a check, so the bucket must not be empty.
     */
    method Delete(clientId: nat) returns (found: bool)
      requires Valid() && chains.arr[Hash(chains.arr.Length, clientId)] != null
      modifies Repr
      ensures Valid() && fresh(Repr - old(Repr))
      ensures found <==> clientId in old(Nodes())
      ensures !found ==> Nodes() == old(Nodes()) && V() == old(V()) && Spare == old(Spare)
      ensures found ==>
                && Nodes() == old(Nodes()) - {clientId} && V() == old(V()) - {clientId}
                && Spare == old(Spare) + [old(Nodes())[clientId]] && Held() == old(Held())
      ensures old(Tracked()) ==> Tracked()
      ensures R.Follows(old(Shelf()), Shelf()) && History == old(History) + [Shelf()]
    {
      ghost var was := Shelf();
      found := TakeOut(clientId);
      assert found ==> R.Gave(was, Shelf(), clientId);
      Note(was);
    }
  }

  // ------------------------------------------------- the table as the server uses it

  /** A new key, which must not be there: `add_accept` does not look at the result. */
  method Join(m: ClientMap, clientId: nat)
    requires m.Valid() && clientId !in m.V()
    modifies m.Repr
    ensures m.Valid() && fresh(m.Repr - old(m.Repr)) && m.V() == old(m.V())[clientId := Client(0, [])]
    ensures clientId in m.Nodes() && m.Nodes() == old(m.Nodes())[clientId := m.Nodes()[clientId]]
            && clientId !in old(m.Nodes())
  {
    m.SameKeys();
    var info := m.NewEntry(clientId);
  }

  /** The entry of a key, for writing through. */
  method Lookup(m: ClientMap, clientId: nat) returns (info: ClientInfo?)
    requires m.Valid()
    ensures info != null <==> clientId in m.V()
    ensures info != null ==> clientId in m.Nodes() && m.Nodes()[clientId] == info
  {
    m.SameKeys();
    info := m.Get(clientId);
  }

  /** Writes the socket of an entry. */
  method SetFd(m: ClientMap, info: ClientInfo, clientId: nat, clientFd: int)
    requires m.Valid() && clientId in m.Nodes() && m.Nodes()[clientId] == info && clientId in m.V()
    modifies m.Repr
    ensures m.Valid() && m.Repr == old(m.Repr) && m.Nodes() == old(m.Nodes())
    ensures m.V() == old(m.V())[clientId := old(m.V())[clientId].(fd := clientFd)]
  {
    m.EntryIs(clientId);
    m.Update(info, clientId, clientFd, info.username);
  }

  /** Writes the name of an entry. */
  method SetUsername(m: ClientMap, info: ClientInfo, clientId: nat, username: seq<byte>)
    requires m.Valid() && clientId in m.Nodes() && m.Nodes()[clientId] == info && clientId in m.V()
    modifies m.Repr
    ensures m.Valid() && m.Repr == old(m.Repr) && m.Nodes() == old(m.Nodes())
    ensures m.V() == old(m.V())[clientId := old(m.V())[clientId].(name := username)]
  {
    m.EntryIs(clientId);
    m.Update(info, clientId, info.clientFd, username);
  }

  /** Deletes a key that has been looked up. */
  method Forget(m: ClientMap, clientId: nat)
    requires m.Valid() && clientId in m.V()
    modifies m.Repr
    ensures m.Valid() && fresh(m.Repr - old(m.Repr)) && m.V() == old(m.V()) - {clientId}
    ensures m.Nodes() == old(m.Nodes()) - {clientId}
  {
    m.SameKeys();
    m.BucketNotEmpty(clientId);
    var found := m.Delete(clientId);
  }

  ghost function Elements<T>(s: seq<T>): set<T> { set x | x in s }

  /** The recycled list after its first node is taken: the last one moves to the front. */
  ghost function TakenFrom<T>(spare: seq<T>): seq<T> {
    if |spare| <= 1 then [] else [spare[|spare| - 1]] + spare[1..|spare| - 1]
  }

  lemma TakenElements<T>(spare: seq<T>)
    requires NoDup(spare) && |spare| > 0
    ensures NoDup(TakenFrom(spare)) && |TakenFrom(spare)| == |spare| - 1
    ensures spare[0] !in TakenFrom(spare) && Elements(TakenFrom(spare)) + {spare[0]} == Elements(spare)
    ensures forall i :: 0 <= i < |TakenFrom(spare)| ==> TakenFrom(spare)[i] == spare[if i == 0 then |spare| - 1 else i]
  {
    var t, n := TakenFrom(spare), |spare| - 1;
    if n > 0 { TakenAt(spare); }
    forall i | 0 < i < |spare| ensures spare[i] in t {
      var k := if i == n then 0 else i;
      assert t[k] == spare[i];
    }
  }

  lemma TakenAt<T>(spare: seq<T>)
    requires |spare| > 1
    ensures var t, n := TakenFrom(spare), |spare| - 1;
            |t| == n && t[0] == spare[n] && forall i :: 0 < i < n ==> t[i] == spare[i]
  {
  }
}
