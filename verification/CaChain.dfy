/** Construction of the chain of root certificates: a linked list whose first node belongs
    to the TLS context and whose other nodes are heap allocated. */
module CaChain {

  /** One certificate object: `cert` names the certificate loaded into it. */
  class Node {
    var cert: nat
    var next: Node?

    constructor ()
      ensures next == null
    {
      cert, next := 0, null;
    }
  }

  /** What the heap, the certificate reader and the profile check answer for one certificate. */
  datatype Answer = Answer(memory: bool, readError: int, flags: nat)

  predicate Acceptable(a: Answer) {
    a.readError == 0 && a.flags == 0
  }

  const ALLOC_FAILED := -0x2880  // MBEDTLS_ERR_X509_ALLOC_FAILED

  datatype Status = Success | InsufficientMemory | NoValidCaCert | OtherFailure

  /** lMbedtlsErrToTransportError, with its error results merged: positive values, such as
      verification flags, count as success. */
  function ErrorToStatus(e: int): Status {
    if e == ALLOC_FAILED then InsufficientMemory else if e < 0 then OtherFailure else Success
  }

  /** The acceptable certificates of a list, in order. */
  function Accepted(certs: seq<nat>, answers: seq<Answer>): seq<nat>
    requires |certs| == |answers|
  {
    if certs == [] then []
    else
      var n := |certs| - 1;
      Accepted(certs[..n], answers[..n]) + if Acceptable(answers[n]) then [certs[n]] else []
  }

  /** `nodes` are linked in order from the first to a null pointer, all different. */
  ghost predicate Linked(nodes: seq<Node>)
    reads nodes
  {
    && (forall i :: 0 <= i < |nodes| - 1 ==> nodes[i].next == nodes[i + 1])
    && (nodes != [] ==> nodes[|nodes| - 1].next == null)
    && (forall i, j :: 0 <= i < j < |nodes| ==> nodes[i] != nodes[j])
  }

  ghost predicate Holds(nodes: seq<Node>, certs: seq<nat>)
    reads nodes
  {
    |nodes| == |certs| && forall i :: 0 <= i < |nodes| ==> nodes[i].cert == certs[i]
  }

  lemma AcceptedStep(certs: seq<nat>, answers: seq<Answer>, n: nat)
    requires |certs| == |answers| && n < |certs|
    ensures var before := Accepted(certs[..n], answers[..n]);
            Accepted(certs[..n + 1], answers[..n + 1]) == if Acceptable(answers[n]) then before + [certs[n]] else before
  {
    assert certs[..n + 1][..n] == certs[..n] && answers[..n + 1][..n] == answers[..n];
  }

  ghost function Members(nodes: seq<Node>): set<Node> {
    set n | n in nodes
  }

  /** Append a node to the list. */
  method Append(ghost chain: seq<Node>, ghost certs: seq<nat>, tail: Node?, node: Node)
    requires Linked(chain) && Holds(chain, certs) && node !in chain && node.next == null
    requires if tail == null then chain == [] else chain != [] && tail == chain[|chain| - 1]
    modifies if tail == null then {} else {tail}
    ensures Linked(chain + [node]) && Holds(chain + [node], certs + [node.cert])
    ensures Members(chain + [node]) == Members(chain) + {node}
    ensures node.cert == old(node.cert)
  {
    if tail != null {
      tail.next := node;
    }
  }

  /** Where the chain begins and ends, and the fate of every heap node. */
  ghost predicate Accounts(head: Node, tail: Node?, chain: seq<Node>, heap: set<Node>, freed: set<Node>) {
    && (if tail == null then chain == [] else chain != [] && chain[0] == head && tail == chain[|chain| - 1])
    && head !in heap && heap == freed + (Members(chain) - {head}) && freed !! Members(chain)
  }

  ghost predicate NewNode(head: Node, tail: Node?, heap: set<Node>, node: Node) {
    if tail == null then node == head else node != head && node !in heap
  }

  lemma NotYetLinked(head: Node, tail: Node?, chain: seq<Node>, heap: set<Node>, freed: set<Node>, node: Node)
    requires Accounts(head, tail, chain, heap, freed) && NewNode(head, tail, heap, node)
    ensures node !in chain && (tail != null ==> tail == head || tail in heap)
  {
    assert node in Members(chain) <==> node in chain;
    assert tail != null ==> tail in Members(chain);
  }

  lemma AccountsAppend(head: Node, tail: Node?, chain: seq<Node>, heap: set<Node>, freed: set<Node>, node: Node)
    requires Accounts(head, tail, chain, heap, freed) && NewNode(head, tail, heap, node)
    requires Members(chain + [node]) == Members(chain) + {node}
    ensures Accounts(head, node, chain + [node], if tail == null then heap else heap + {node}, freed)
  {
  }

  lemma AccountsFree(head: Node, tail: Node?, chain: seq<Node>, heap: set<Node>, freed: set<Node>, node: Node)
    requires Accounts(head, tail, chain, heap, freed) && NewNode(head, tail, heap, node) && tail != null
    ensures Accounts(head, tail, chain, heap + {node}, freed + {node})
  {
    NotYetLinked(head, tail, chain, heap, freed, node);
    assert node !in Members(chain);
  }

  /** Certificate `i`, once reached, ends the loop: there is no memory for its object, which
      only the first accepted one does not need, or the reader itself ran out of memory. */
  predicate AllocFails(answers: seq<Answer>, i: nat)
    requires i < |answers|
  {
    || (!answers[i].memory && exists j :: 0 <= j < i && answers[j].readError == 0 && answers[j].flags == 0)
    || answers[i].readError == ALLOC_FAILED
  }

  lemma {:induction false} AcceptedSome(certs: seq<nat>, answers: seq<Answer>, n: nat)
    requires |certs| == |answers| && n <= |certs|
    ensures Accepted(certs[..n], answers[..n]) != [] <==> exists j :: 0 <= j < n && Acceptable(answers[j])
  {
    hide Acceptable;
    if n == 0 {
      assert certs[..0] == [];
    } else {
      AcceptedStep(certs, answers, n - 1);
      AcceptedSome(certs, answers, n - 1);
      hide Accepted;
      assert (exists j :: 0 <= j < n && Acceptable(answers[j])) <==>
             Acceptable(answers[n - 1]) || exists j :: 0 <= j < n - 1 && Acceptable(answers[j]);
    }
  }

  /** `linked` lists, in order, the certificates before `n` that were read and passed the
      profile check. */
  ghost predicate Picks(linked: seq<nat>, answers: seq<Answer>, n: nat)
    requires n <= |answers|
  {
    && (forall a, b :: 0 <= a < b < |linked| ==> linked[a] < linked[b])
    && (forall k :: 0 <= k < |linked| ==> linked[k] < n)
    && forall i: nat :: i in linked <==> i < n && answers[i].readError == 0 && answers[i].flags == 0
  }

  lemma PickNext(linked: seq<nat>, answers: seq<Answer>, n: nat)
    requires n < |answers| && Picks(linked, answers, n)
    ensures Picks(if answers[n].readError == 0 && answers[n].flags == 0 then linked + [n] else linked, answers, n + 1)
  {
    assert n !in linked;
    var next := linked + [n];
    assert forall i: nat :: i in next <==> i in linked || i == n;
  }

  ghost predicate Names(linked: seq<nat>, certs: seq<nat>, kept: seq<nat>) {
    |kept| == |linked| && forall k :: 0 <= k < |linked| ==> linked[k] < |certs| && kept[k] == certs[linked[k]]
  }

  /** Where in the list the accepted certificates are. */
  lemma {:induction false} AcceptedIndices(certs: seq<nat>, answers: seq<Answer>, n: nat) returns (linked: seq<nat>)
    requires |certs| == |answers| && n <= |certs|
    ensures Picks(linked, answers, n) && Names(linked, certs, Accepted(certs[..n], answers[..n]))
  {
    hide Accepted, Picks, Names;
    if n == 0 {
      linked := [];
      NoneAccepted(certs, answers);
    } else {
      var before := AcceptedIndices(certs, answers, n - 1);
      var kept := Accepted(certs[..n - 1], answers[..n - 1]);
      AcceptedStep(certs, answers, n - 1);
      PickNext(before, answers, n - 1);
      NameNext(before, certs, kept, n - 1);
      linked := if answers[n - 1].readError == 0 && answers[n - 1].flags == 0 then before + [n - 1] else before;
    }
  }

  lemma NoneAccepted(certs: seq<nat>, answers: seq<Answer>)
    requires |certs| == |answers|
    ensures Picks([], answers, 0) && Names([], certs, Accepted(certs[..0], answers[..0]))
  {
  }

  lemma NameNext(linked: seq<nat>, certs: seq<nat>, kept: seq<nat>, n: nat)
    requires n < |certs| && Names(linked, certs, kept)
    ensures Names(linked + [n], certs, kept + [certs[n]])
  {
  }

  /** The loop of xConfigureCAChain. `done` certificates are processed before an allocation
      failure, or all of them; the acceptable ones among these form the chain, in order, and
      each heap node is linked once or freed once. */
  method LoadChain(head: Node, certs: seq<nat>, answers: seq<Answer>)
    returns (count: nat, last: int, done: nat, ghost chain: seq<Node>, ghost heap: set<Node>, ghost freed: set<Node>)
    requires |certs| == |answers| > 0
    modifies head
    ensures done <= |certs| && forall i :: 0 <= i < done ==> !AllocFails(answers, i)
    ensures done < |certs| ==> AllocFails(answers, done)
    ensures last == if done < |certs| then ALLOC_FAILED else ReadOrProfile(answers[done - 1])
    ensures last == ALLOC_FAILED ==> done < |certs|
    ensures Linked(chain) && Holds(chain, Accepted(certs[..done], answers[..done])) && count == |chain|
    ensures chain != [] ==> chain[0] == head
    ensures fresh(heap) && heap == freed + (Members(chain) - {head}) && freed !! Members(chain)
  {
    hide Accounts, Linked, Holds, Members, Accepted;
    var tail: Node? := null;
    count, last, done := 0, 0, 0;
    chain, heap, freed := [], {}, {};
    AccountsEmpty(head);
    assert certs[..0] == [] && answers[..0] == [];
    while done < |certs|
      invariant done <= |certs| && last != ALLOC_FAILED
      invariant Linked(chain) && Holds(chain, Accepted(certs[..done], answers[..done])) && count == |chain|
      invariant Accounts(head, tail, chain, heap, freed) && fresh(heap)
      invariant done > 0 ==> last == ReadOrProfile(answers[done - 1])
      invariant forall i :: 0 <= i < done ==> !AllocFails(answers, i)
    {
      AcceptedStep(certs, answers, done);
      ghost var kept := Accepted(certs[..done], answers[..done]);
      AccountsTail(head, tail, chain, heap, freed);
      AcceptedSome(certs, answers, done);
      HoldsLength(chain, kept);
      var node: Node? := null;
      if tail == null {
        node := head;
      } else if answers[done].memory {
        node := new Node();
      }
      if node != null {
        NotYetLinked(head, tail, chain, heap, freed, node);
        node.next, node.cert := null, certs[done];
      }
      last := ALLOC_FAILED;
      if node != null {
        last := answers[done].readError;
      }
      if last == 0 {
        last := answers[done].flags;
      }
      assert last == ALLOC_FAILED <==> AllocFails(answers, done);
      if last == 0 {
        Append(chain, kept, tail, node);
        AccountsAppend(head, tail, chain, heap, freed, node);
        heap := if tail == null then heap else heap + {node};
        chain, tail := chain + [node], node;
        count := count + 1;
      } else if node != null && tail != null {
        AccountsFree(head, tail, chain, heap, freed, node);
        heap, freed := heap + {node}, freed + {node};
      }
      if last == ALLOC_FAILED {
        break;
      }
      done := done + 1;
    }
    AccountsDone(head, tail, chain, heap, freed);
  }

  /** The error of a certificate that has a node: the reader's, or else the profile check's. */
  function ReadOrProfile(a: Answer): int {
    if a.readError != 0 then a.readError else a.flags
  }

  lemma LinkedAre(nodes: seq<Node>)
    requires Linked(nodes)
    ensures forall n :: 0 <= n < |nodes| ==> nodes[n].next == if n + 1 < |nodes| then nodes[n + 1] else null
  {
  }

  lemma AcceptedHold(nodes: seq<Node>, certs: seq<nat>, answers: seq<Answer>, n: nat) returns (linked: seq<nat>)
    requires |certs| == |answers| && n <= |certs| && Holds(nodes, Accepted(certs[..n], answers[..n]))
    ensures forall a, b :: 0 <= a < b < |linked| ==> linked[a] < linked[b]
    ensures forall i: nat :: i in linked <==> i < n && answers[i].readError == 0 && answers[i].flags == 0
    ensures |nodes| == |linked| && forall k :: 0 <= k < |linked| ==> linked[k] < n && nodes[k].cert == certs[linked[k]]
  {
    hide Accepted;
    linked := AcceptedIndices(certs, answers, n);
  }

  /** xConfigureCAChain. `linked` says where in the list the chained certificates are: exactly
      those that were read and passed the profile check before an allocation failure. The
      status follows from the answers alone. */
  method ConfigureCAChain(head: Node, certs: seq<nat>, answers: seq<Answer>)
    returns (status: Status, count: nat, last: int, done: nat, ghost chain: seq<Node>, ghost heap: set<Node>, ghost freed: set<Node>,
             ghost linked: seq<nat>)
    requires |certs| == |answers| > 0
    modifies head
    ensures done <= |certs| && forall i :: 0 <= i < done ==> !AllocFails(answers, i)
    ensures done < |certs| ==> AllocFails(answers, done) && last == ALLOC_FAILED
    ensures done == |certs| ==>
              last == if answers[done - 1].readError != 0 then answers[done - 1].readError else answers[done - 1].flags
    ensures forall m, n :: 0 <= m < n < |linked| ==> linked[m] < linked[n]
    ensures forall i: nat :: i in linked <==> i < done && answers[i].readError == 0 && answers[i].flags == 0
    ensures |chain| == |linked| && forall n :: 0 <= n < |linked| ==> linked[n] < |certs| && chain[n].cert == certs[linked[n]]
    ensures Linked(chain) && Holds(chain, Accepted(certs[..done], answers[..done])) && count == |chain|
    ensures forall n :: 0 <= n < |chain| ==> chain[n].next == if n + 1 < |chain| then chain[n + 1] else null
    ensures chain != [] ==> chain[0] == head
    ensures fresh(heap) && heap == freed + (Members(chain) - {head}) && freed !! Members(chain)
    ensures status == InsufficientMemory <==> exists i :: 0 <= i < |answers| && AllocFails(answers, i)
    ensures status == NoValidCaCert <==>
            forall i :: 0 <= i < |answers| ==>
              (answers[i].readError != 0 || answers[i].flags != 0) && !AllocFails(answers, i)
    ensures status == Success <==>
            && (forall i :: 0 <= i < |answers| ==> !AllocFails(answers, i))
            && (exists i :: 0 <= i < |answers| && answers[i].readError == 0 && answers[i].flags == 0)
            && answers[|answers| - 1].readError >= 0
  {
    hide Linked, Holds, Members, Accepted, AllocFails;
    count, last, done, chain, heap, freed := LoadChain(head, certs, answers);
    linked := AcceptedHold(chain, certs, answers, done);
    LinkedAre(chain);
    status := ErrorToStatus(last);
    if count == 0 && last != ALLOC_FAILED {
      status := NoValidCaCert;
    }
    assert linked != [] ==> linked[0] in linked;
  }

  lemma HoldsLength(nodes: seq<Node>, certs: seq<nat>)
    requires Holds(nodes, certs)
    ensures |nodes| == |certs| && forall i :: 0 <= i < |nodes| ==> nodes[i].cert == certs[i]
  {
  }

  lemma AccountsEmpty(head: Node)
    ensures Accounts(head, null, [], {}, {}) && Linked([]) && Holds([], Accepted([], []))
  {
  }

  lemma AccountsTail(head: Node, tail: Node?, chain: seq<Node>, heap: set<Node>, freed: set<Node>)
    requires Accounts(head, tail, chain, heap, freed)
    ensures if tail == null then chain == [] else chain != [] && tail == chain[|chain| - 1]
    ensures head !in heap
  {
  }

  lemma AccountsDone(head: Node, tail: Node?, chain: seq<Node>, heap: set<Node>, freed: set<Node>)
    requires Accounts(head, tail, chain, heap, freed)
    ensures chain != [] ==> chain[0] == head
    ensures heap == freed + (Members(chain) - {head}) && freed !! Members(chain)
  {
  }
}
