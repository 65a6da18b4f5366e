/** adb_auth_host.cpp: the list of private keys and its rotation. Loading a key file is not part of
    this model; its outcome, a key or a failure, is a parameter. */
module AuthKeys {
  import opened Ring
  import opened Wrappers
  import Rotation

  /** An opaque RSA private key. */
  type Rsa = nat

  class AdbPrivateKey {
    const node: ListNode
    const rsa: Rsa

    constructor (key: Rsa)
      ensures rsa == key && fresh(node)
    {
      node := new ListNode();
      rsa := key;
    }
  }

  /** The list nodes of the keys. */
  ghost function Nodes(keys: seq<AdbPrivateKey>): (nodes: seq<ListNode>)
    ensures |nodes| == |keys| && forall i :: 0 <= i < |keys| ==> nodes[i] == keys[i].node
  {
    seq(|keys|, i requires 0 <= i < |keys| => keys[i].node)
  }

  ghost function Rsas(keys: seq<AdbPrivateKey>): (rsas: seq<Rsa>)
    ensures |rsas| == |keys| && forall i :: 0 <= i < |keys| ==> rsas[i] == keys[i].rsa
  {
    seq(|keys|, i requires 0 <= i < |keys| => keys[i].rsa)
  }

  /** The RSA keys among the outcomes of loading files. */
  function Loaded(files: seq<Option<Rsa>>): seq<Rsa> {
    if files == [] then []
    else Loaded(files[..|files| - 1]) + match files[|files| - 1] case Some(rsa) => [rsa] case None => []
  }

  /** The keys a start-up collects: nothing without a user key, otherwise that one and then each
      vendor key that loaded. */
  function Collected(user: Option<Rsa>, vendors: seq<Option<Rsa>>): seq<Rsa> {
    if user.None? then [] else [user.value] + Loaded(vendors)
  }

  /** rsas are the keys of the files that loaded, in order: number k is that of file at[k]. */
  ghost predicate InFileOrder(files: seq<Option<Rsa>>, rsas: seq<Rsa>, at: seq<nat>) {
    && |rsas| == |at| && (forall k :: 0 <= k < |at| ==> at[k] < |files| && files[at[k]] == Some(rsas[k]))
    && (forall j, k :: 0 <= j < k < |at| ==> at[j] < at[k])
    && forall i :: 0 <= i < |files| && files[i].Some? ==> i in at
  }

  lemma OneMoreFile(files: seq<Option<Rsa>>, rsas: seq<Rsa>, at: seq<nat>, file: Option<Rsa>)
    requires InFileOrder(files, rsas, at)
    ensures file.None? ==> InFileOrder(files + [file], rsas, at)
    ensures file.Some? ==> InFileOrder(files + [file], rsas + [file.value], at + [|files|])
  {
    if file.Some? {
      forall i | 0 <= i <= |files| && (files + [file])[i].Some? ensures i in at + [|files|] {
        assert i == |files| ==> (at + [|files|])[|at|] == i;
      }
    }
  }

  lemma {:induction false} LoadedInOrder(files: seq<Option<Rsa>>) returns (at: seq<nat>)
    ensures InFileOrder(files, Loaded(files), at)
  {
    if files == [] {
      at := [];
    } else {
      var before, file := files[..|files| - 1], files[|files| - 1];
      at := LoadedInOrder(before);
      OneMoreFile(before, Loaded(before), at, file);
      assert files == before + [file];
      if file.Some? {
        at := at + [|before|];
      }
    }
  }

  /** read_key: appends one node unless loading fails. */
  method ReadKey(file: Option<Rsa>, list: ListNode, ghost keys: seq<AdbPrivateKey>)
    returns (ok: bool, ghost keys': seq<AdbPrivateKey>)
    requires IsRing(list, Nodes(keys))
    modifies list, list.prev
    ensures ok == file.Some? && IsRing(list, Nodes(keys'))
    ensures keys <= keys' && Rsas(keys') == Rsas(keys) + if ok then [file.value] else []
    ensures if ok then fresh(list.prev) else list.prev == old(list.prev)
  {
    if file.None? {
      return false, keys;
    }
    var key := new AdbPrivateKey(file.value);
    keys' := keys + [key];
    assert Nodes(keys') == Nodes(keys) + [key.node];
    ListAddTail(list, key.node, Nodes(keys));
    ok := true;
  }

  lemma KeysInFileOrder(keys: seq<AdbPrivateKey>, user: Rsa, vendors: seq<Option<Rsa>>, at: seq<nat>)
    requires Rsas(keys) == [user] + Loaded(vendors) && InFileOrder(vendors, Loaded(vendors), at)
    ensures |keys| == 1 + |at| && keys[0].rsa == user
    ensures forall k :: 0 <= k < |at| ==> vendors[at[k]] == Some(keys[1 + k].rsa)
  {
    assert keys[0].rsa == Rsas(keys)[0];
    forall k | 0 <= k < |at| ensures vendors[at[k]] == Some(keys[1 + k].rsa) {
      assert keys[1 + k].rsa == Rsas(keys)[1 + k] == Loaded(vendors)[k];
    }
  }

  /** get_vendor_keys over the paths it splits out: each key that loads goes to the end of the list. */
  method GetVendorKeys(list: ListNode, vendors: seq<Option<Rsa>>, ghost keys: seq<AdbPrivateKey>)
    returns (ghost keys': seq<AdbPrivateKey>)
    requires IsRing(list, Nodes(keys))
    modifies list, list.prev
    ensures IsRing(list, Nodes(keys')) && Rsas(keys') == Rsas(keys) + Loaded(vendors)
  {
    keys' := keys;
    var ret;
    for i := 0 to |vendors|
      invariant IsRing(list, Nodes(keys'))
      invariant Rsas(keys') == Rsas(keys) + Loaded(vendors[..i])
      invariant fresh(list.prev) || list.prev == old(list.prev)
    {
      assert vendors[..i + 1][..i] == vendors[..i];
      ret, keys' := ReadKey(vendors[i], list, keys');
    }
    assert vendors[..|vendors|] == vendors;
  }

  /** adb_auth_init: get_user_key, then get_vendor_keys. */
  method AuthInit(keyList: ListNode, user: Option<Rsa>, vendors: seq<Option<Rsa>>)
    returns (ghost keys: seq<AdbPrivateKey>, ghost at: seq<nat>)
    modifies keyList
    ensures IsRing(keyList, Nodes(keys)) && Rsas(keys) == Collected(user, vendors)
    ensures if user.None? then keys == []
            else
              && |keys| == 1 + |at| && keys[0].rsa == user.value
              && (forall k :: 0 <= k < |at| ==> at[k] < |vendors| && vendors[at[k]] == Some(keys[1 + k].rsa))
              && (forall j, k :: 0 <= j < k < |at| ==> at[j] < at[k])
              && forall i :: 0 <= i < |vendors| && vendors[i].Some? ==> i in at
  {
    keys := [];
    at := LoadedInOrder(vendors);
    ListInit(keyList);
    assert Nodes([]) == [];
    var ret;
    ret, keys := ReadKey(user, keyList, keys);
    if !ret {
      return;
    }
    keys := GetVendorKeys(keyList, vendors, keys);
    KeysInFileOrder(keys, user.value, vendors, at);
  }

  /** adb_auth_nextkey: the key after current, the first when there is none, and NULL after the last
      or when current is not on the list. */
  method NextKey(keyList: ListNode, current: ListNode?, ghost items: seq<ListNode>) returns (r: ListNode?)
    requires IsRing(keyList, items)
    ensures forall p :: 0 <= p <= |items| && current == At(items, p) ==> r == At(items, Rotation.Next(p, |items|))
    ensures current != null && current !in items ==> r == null
  {
    RingEnds(keyList, items);
    ghost var c := [keyList] + items;
    if ListEmpty(keyList) {
      return null;
    }
    if current == null {
      return ListHead(keyList);
    }
    ghost var k := 0;
    var item := keyList.next;
    while item != keyList
      invariant k <= |items| && item == (c + [keyList])[k + 1]
      invariant forall i :: 0 <= i < k ==> items[i] != current
      decreases |items| - k
    {
      assert item == c[k + 1] == items[k];
      if item == current {
        assert item.next == (c + [keyList])[k + 2];
        assert forall i :: 0 <= i < |items| ==> items[i] == c[i + 1];
        assert forall i :: 0 <= i < |items| && items[i] == current ==> i == k;
        if item.next == keyList {
          return null;
        }
        return item.next;
      }
      item := item.next;
      k := k + 1;
    }
    assert forall i :: 0 < i < |c| ==> c[i] != c[0];
    return null;
  }

  /** The node at position p, NULL past the last. */
  ghost function At(items: seq<ListNode>, p: nat): ListNode? {
    if p < |items| then items[p] else null
  }

  /** What the transport answers to an AUTH token: a signature by a key, or the public key. */
  datatype Reply = Signature(node: ListNode) | PublicKey

  ghost function ReplyAt(items: seq<ListNode>, p: nat): Reply {
    if p < |items| then Signature(items[p]) else PublicKey
  }

  /** Catransport::handle_packet over a run of AUTH tokens, the key fed back each time: every key
      signs once, in list order, then the public key is offered, and round again. */
  method AnswerTokens(keyList: ListNode, tokens: nat, ghost items: seq<ListNode>) returns (replies: seq<Reply>)
    requires IsRing(keyList, items)
    ensures |replies| == tokens
    ensures forall k :: 0 <= k < tokens ==> replies[k] == ReplyAt(items, k % (|items| + 1))
  {
    var key: ListNode? := null;
    replies := [];
    ghost var n := |items|;
    ghost var at: nat := n;
    for i := 0 to tokens
      invariant |replies| == i && at <= n && key == At(items, at)
      invariant at == if i == 0 then n else Rotation.Answer(n, i - 1)
      invariant forall k :: 0 <= k < i ==> replies[k] == ReplyAt(items, k % (n + 1))
    {
      key := NextKey(keyList, key, items);
      at := Rotation.Next(at, n);
      Rotation.AnswerCycles(n, i);
      replies := replies + [if key != null then Signature(key) else PublicKey];
    }
  }

  /** From start-up to the tokens: token number k is signed with key number k mod (n + 1), counted
      from 0, of the n keys collected: the user key, then each vendor key that loaded, in the order
      of the paths. When that number is n the public key is sent. */
  method StartAndAnswer(keyList: ListNode, user: Option<Rsa>, vendors: seq<Option<Rsa>>, tokens: nat)
    returns (replies: seq<Reply>, ghost keys: seq<AdbPrivateKey>, ghost at: seq<nat>)
    modifies keyList
    ensures |replies| == tokens
    ensures if user.None? then keys == []
            else
              && |keys| == 1 + |at| && keys[0].rsa == user.value
              && (forall k :: 0 <= k < |at| ==> at[k] < |vendors| && vendors[at[k]] == Some(keys[1 + k].rsa))
              && (forall j, k :: 0 <= j < k < |at| ==> at[j] < at[k])
              && forall i :: 0 <= i < |vendors| && vendors[i].Some? ==> i in at
    ensures Rsas(keys) == Collected(user, vendors)
    ensures forall k :: 0 <= k < tokens ==>
              var p := k % (|keys| + 1);
              replies[k] == if p < |keys| then Signature(keys[p].node) else PublicKey
  {
    keys, at := AuthInit(keyList, user, vendors);
    replies := AnswerTokens(keyList, tokens, Nodes(keys));
  }
}
