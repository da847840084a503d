/** The comparison operators of the structured error type of package `sp`
    (core/sp/compare.go).

    An `Error` wraps a `cause`, carries a content hash `id`, and links back to
    the `previous` Error it superseded.  Four comparisons are defined on it:
    `Is` (the node's own cause only), `DeepIs` (every node of the chain, found
    by popping a private copy), `IsSP` (finalized digests, byte for byte) and
    `CmpHashes` (the same digest test on two bare hashes).

    What the Go standard library supplies is modelled at its interface:
    - `errors.Is(cause, target)` is the relation `matches`, passed in as a
      total function value and otherwise left uninterpreted;
    - a `hash.Hash` is an object holding its current digest, and `Sum(b)`
      appends that digest to `b` without changing the object;
    - `slices.Compare` is `Compare`, lexicographic order on byte sequences. */
module Sp {

  datatype Option<T> = None | Some(value: T)

  /** A value-detached snapshot of one chain node, as `Pop` hands it out. */
  datatype Node<E> = Node(cause: E, id: Hash)

  /** A `hash.Hash` reduced to its finalization: `digest` is what `Sum` appends. */
  class Hash {
    var digest: seq<bv8>

    /** `h.Sum(b)`: `b` followed by the current digest.  Being a function it
        cannot change the hash, so finalizing twice gives the same bytes. */
    function Sum(b: seq<bv8>): seq<bv8>
      reads this
    {
      b + digest
    }
  }

  /** `slices.Compare` on byte slices: the first differing byte decides,
      and a proper prefix orders before the longer sequence. */
  function Compare(a: seq<bv8>, b: seq<bv8>): (c: int)
    ensures -1 <= c <= 1
    ensures c == 0 <==> a == b
  {
    if a == [] then (if b == [] then 0 else -1)
    else if b == [] then 1
    else if a[0] < b[0] then -1
    else if a[0] > b[0] then 1
    else
      assert a == [a[0]] + a[1..] && b == [b[0]] + b[1..];
      Compare(a[1..], b[1..])
  }

  /** `cmpHashes(h1, h2)`: the two finalized digests are the same bytes. */
  function CmpHashes(h1: Hash, h2: Hash): (r: bool)
    reads h1, h2
    ensures r <==> h1.digest == h2.digest
  {
    assert h1.Sum([]) == h1.digest && h2.Sum([]) == h2.digest;
    Compare(h1.Sum([]), h2.Sum([])) == 0
  }

  /** Some node of `nodes` has a cause that `errors.Is` relates to `target`. */
  predicate AnyMatch<E>(nodes: seq<Node<E>>, target: E, matches: (E, E) -> bool)
  {
    exists i :: 0 <= i < |nodes| && matches(nodes[i].cause, target)
  }

  /** The position of the first node whose cause matches `target`, or
      `|nodes|` when there is none. */
  function FirstMatch<E>(nodes: seq<Node<E>>, target: E, matches: (E, E) -> bool): (k: nat)
    ensures k <= |nodes|
    ensures k < |nodes| ==> matches(nodes[k].cause, target)
    ensures forall j :: 0 <= j < k ==> !matches(nodes[j].cause, target)
    ensures k < |nodes| <==> AnyMatch(nodes, target, matches)
  {
    if nodes == [] then 0
    else if matches(nodes[0].cause, target) then 0
    else 1 + FirstMatch(nodes[1..], target, matches)
  }

  /** Moving the first element of `rest` to the end of `done` keeps their
      concatenation. */
  lemma MoveFront<T>(done: seq<T>, rest: seq<T>)
    requires rest != []
    ensures done + rest == (done + [rest[0]]) + rest[1..]
  {
    assert rest == [rest[0]] + rest[1..];
  }

  /** `done` is the prefix of `done + rest` of its own length. */
  lemma PrefixOfConcat<T>(done: seq<T>, rest: seq<T>)
    ensures |done| <= |done + rest| && (done + rest)[..|done|] == done
  {
  }

  /** Appending a node to a list with no match gives a list with a match
      exactly when the appended node matches. */
  lemma NoMatchExtends<E>(nodes: seq<Node<E>>, n: Node<E>, target: E, matches: (E, E) -> bool)
    requires !AnyMatch(nodes, target, matches)
    ensures AnyMatch(nodes + [n], target, matches) <==> matches(n.cause, target)
  {
    if matches(n.cause, target) {
      assert (nodes + [n])[|nodes|] == n;
    }
  }

  /** When nothing in `done` matches and the node after it does, that node's
      position is what `FirstMatch` finds. */
  lemma {:induction false} FirstMatchAfter<E>(done: seq<Node<E>>, rest: seq<Node<E>>, target: E, matches: (E, E) -> bool)
    requires !AnyMatch(done, target, matches)
    requires rest != [] && matches(rest[0].cause, target)
    ensures FirstMatch(done + rest, target, matches) == |done|
  {
    if done != [] {
      assert (done + rest)[1..] == done[1..] + rest;
      assert !matches(done[0].cause, target);
      FirstMatchAfter(done[1..], rest, target, matches);
    }
  }

  /** The structured error.  `cause`, `id` and `previous` are the fields of the
      Go struct.  `drained` stands for the state the receiver of `Pop` is left
      in once it has been moved past the oldest node (after which `Pop` yields
      nil).  The ghost `chain` lists the snapshots successive `Pop` calls yield,
      newest first, and `Repr` is the set of nodes reachable through
      `previous`. */
  class Error<E> {
    var cause: E
    var id: Hash
    var previous: Error?<E>
    var drained: bool
    ghost var chain: seq<Node<E>>
    ghost var Repr: set<object>

    /** The `previous` links form a finite, acyclic list of live nodes, and
        `chain` is this node's snapshot followed by the chain of the node it
        links to. */
    ghost predicate Valid()
      reads this, Repr
      decreases Repr
    {
      this in Repr &&
      (previous != null ==>
         previous in Repr && this !in previous.Repr &&
         previous.Repr <= Repr && previous.Valid() && !previous.drained) &&
      (drained ==> previous == null) &&
      chain == (if drained then []
                else [Node(cause, id)] + (if previous == null then [] else previous.chain))
    }

    /** `var cp = &Error{}; *cp = *e`: a fresh struct holding the same field
        values, so it shares the nodes behind `previous` with `e`. */
    constructor CopyOf(e: Error<E>)
      requires e.Valid()
      ensures Valid()
      ensures cause == e.cause && id == e.id && previous == e.previous && drained == e.drained
      ensures chain == e.chain
    {
      cause := e.cause;
      id := e.id;
      previous := e.previous;
      drained := e.drained;
      chain := e.chain;
      Repr := {this} + (if e.previous == null then {} else e.previous.Repr);
    }

    /** `Pop`, from the way `DeepIs` uses it: hand out the current node and
        move the receiver one link back; once past the oldest node, yield
        nil, and keep yielding nil.  Only the receiver changes. */
    method Pop() returns (head: Option<Node<E>>)
      requires Valid()
      modifies this
      ensures Valid()
      ensures Repr <= old(Repr)
      ensures old(chain) == [] ==> head == None && chain == []
      ensures old(chain) != [] ==> head == Some(old(chain)[0]) && chain == old(chain)[1..]
    {
      if drained {
        return None;
      }
      head := Some(Node(cause, id));
      if previous == null {
        drained := true;
        chain := [];
      } else {
        var p := previous;
        assert p.previous != null ==> p.previous.Valid() && p.previous in p.previous.Repr;
        cause, id, previous, drained := p.cause, p.id, p.previous, p.drained;
        chain := p.chain;
        Repr := {this} + (if p.previous == null then {} else p.previous.Repr);
      }
    }

    /** `e.Is(err)`: `errors.Is` on this node's own cause.  The frame says it
        looks at `cause` only, never at `id` or the `previous` chain. */
    function Is(target: E, matches: (E, E) -> bool): bool
      reads this`cause
    {
      matches(cause, target)
    }

    /** The deep search is the shallow test at this node, or the deep search
        of the node it links back to. */
    lemma DeepIsUnfolds(target: E, matches: (E, E) -> bool)
      requires Valid() && !drained
      ensures AnyMatch(chain, target, matches) <==>
              Is(target, matches) || (previous != null && AnyMatch(previous.chain, target, matches))
    {
      var tail := if previous == null then [] else previous.chain;
      assert chain == [Node(cause, id)] + tail;
      if Is(target, matches) {
        assert matches(chain[0].cause, target);
      }
      if AnyMatch(chain, target, matches) && !Is(target, matches) {
        var i :| 0 <= i < |chain| && matches(chain[i].cause, target);
        assert chain[i] == tail[i - 1];
      }
      if previous != null && AnyMatch(tail, target, matches) {
        var j :| 0 <= j < |tail| && matches(tail[j].cause, target);
        assert chain[j + 1] == tail[j];
      }
    }

    /** `e.DeepIs(err)`: pop a private copy of `e` until `Pop` yields nil,
        stopping at the first node whose cause matches.  The ghost `tested`
        records the nodes whose cause was tested, in order.  Having no
        `modifies` clause, it changes no field of `e` or of any node of its
        chain. */
    method DeepIs(target: E, matches: (E, E) -> bool) returns (found: bool, ghost tested: seq<Node<E>>)
      requires Valid()
      ensures found <==> AnyMatch(chain, target, matches)
      ensures |tested| <= |chain| && tested == chain[..|tested|]
      ensures found ==> |tested| == FirstMatch(chain, target, matches) + 1
      ensures !found ==> tested == chain
    {
      var cp := new Error<E>.CopyOf(this);
      tested := [];
      while true
        invariant cp.Valid()
        invariant tested + cp.chain == chain
        invariant !AnyMatch(tested, target, matches)
        decreases |cp.chain|
      {
        ghost var rest := cp.chain;
        var head := cp.Pop();
        if head.None? {
          break;
        }
        MoveFront(tested, rest);
        if matches(head.value.cause, target) {
          FirstMatchAfter(tested, rest, target, matches);
          tested := tested + [head.value];
          PrefixOfConcat(tested, cp.chain);
          return true, tested;
        }
        NoMatchExtends(tested, head.value, target, matches);
        tested := tested + [head.value];
      }
      assert tested == chain;
      return false, tested;
    }

    /** `e.IsSP(err)`: the finalized digests of the two `id` hashes are equal
        byte sequences.  The frame says only `id` of each error is read. */
    function IsSP(other: Error<E>): (r: bool)
      reads this`id, other`id, id, other.id
      ensures r <==> id.digest == other.id.digest
    {
      assert id.Sum([]) == id.digest && other.id.Sum([]) == other.id.digest;
      Compare(id.Sum([]), other.id.Sum([])) == 0
    }

    /** An error is IsSP-equal to itself. */
    lemma IsSPReflexive()
      ensures IsSP(this)
    {
    }

    /** IsSP does not depend on the order of its operands. */
    lemma IsSPSymmetric(other: Error<E>)
      ensures IsSP(other) == other.IsSP(this)
    {
    }

    /** IsSP is the hash comparison applied to the two `id` fields. */
    lemma IsSPIsCmpHashes(other: Error<E>)
      ensures IsSP(other) == CmpHashes(id, other.id)
    {
    }
  }

  /** Errors whose digests agree are IsSP-equal whatever their causes and
      chains are. */
  lemma IsSPOnlyDigests<E>(a: Error<E>, b: Error<E>, a2: Error<E>, b2: Error<E>)
    requires a.id.digest == a2.id.digest && b.id.digest == b2.id.digest
    ensures a.IsSP(b) == a2.IsSP(b2)
  {
  }

  /** `Is` reads nothing but the cause: two errors with the same cause agree
      on it whatever their hashes and chains are. */
  lemma IsReadsOnlyCause<E>(a: Error<E>, b: Error<E>, target: E, matches: (E, E) -> bool)
    requires a.cause == b.cause
    ensures a.Is(target, matches) == b.Is(target, matches)
  {
  }

  /** The chain A -> B -> C (C the oldest) in which only B's cause matches:
      the shallow test on A fails, `Pop` yields A, B, C in that order, and the
      deep search finds B after testing two nodes. */
  lemma ChainScenario<E>(a: Error<E>, b: Error<E>, c: Error<E>, target: E, matches: (E, E) -> bool)
    requires a.Valid() && !a.drained && a.previous == b && b.previous == c && c.previous == null
    requires !matches(a.cause, target) && matches(b.cause, target) && !matches(c.cause, target)
    ensures !a.Is(target, matches)
    ensures a.chain == [Node(a.cause, a.id), Node(b.cause, b.id), Node(c.cause, c.id)]
    ensures AnyMatch(a.chain, target, matches) && FirstMatch(a.chain, target, matches) == 1
  {
    var na, nb, nc := Node(a.cause, a.id), Node(b.cause, b.id), Node(c.cause, c.id);
    assert b.Valid() && c.Valid();
    assert c.chain == [nc];
    assert b.chain == [nb] + [nc];
    assert a.chain == [na] + [nb, nc];
    assert !AnyMatch([na], target, matches);
    FirstMatchAfter([na], [nb, nc], target, matches);
  }

  /** DeepIs leaves its receiver as it found it: asking twice gives the same
      answer. */
  method DeepIsRepeatable<E>(e: Error<E>, target: E, matches: (E, E) -> bool)
    returns (first: bool, second: bool)
    requires e.Valid()
    ensures first == second
    ensures first <==> AnyMatch(e.chain, target, matches)
  {
    ghost var tested;
    first, tested := e.DeepIs(target, matches);
    second, tested := e.DeepIs(target, matches);
  }
}
