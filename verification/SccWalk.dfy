/** The iterative walk of `rewrite_cyclic_tail_calls` over its scratch tables. */
module SccWalk {
  import opened Digraph
  import opened Tarjan
  import opened SccMachine

  class Walk {
    ghost const g: Graph
    const n: nat
    const first: array<nat>
    const targets: array<nat>
    const discovery: array<int>
    const lowlink: array<int>
    const component: array<nat>
    const componentSize: array<nat>
    const tarjanStack: array<nat>
    const walkNode: array<nat>
    const walkEdge: array<nat>
    const onStack: array<bool>
    var clock: nat
    var stackTop: nat
    var components: nat
    var depth: nat // nodes on the walk: one more than the source's index of the top
    ghost var s: State

    /** The tables are large enough and do not overlap. */
    ghost predicate Layout() {
      && |g| == n
      && first.Length == n + 1
      && discovery.Length == lowlink.Length == component.Length == componentSize.Length == n + 1
      && tarjanStack.Length == walkNode.Length == walkEdge.Length == onStack.Length == n + 1
      && discovery != lowlink
      && component !in {first, targets, componentSize, tarjanStack, walkNode, walkEdge}
      && componentSize !in {first, targets, tarjanStack, walkNode, walkEdge}
      && tarjanStack !in {first, targets, walkNode, walkEdge}
      && walkNode !in {first, targets, walkEdge}
      && walkEdge !in {first, targets}
    }

    ghost predicate Fits()
      reads this
    {
      Layout() && stackTop <= n && depth <= n
    }

    ghost function View(): Machine
      requires Fits()
      reads this, discovery, lowlink, component, componentSize, onStack, tarjanStack, walkNode, walkEdge
    {
      Machine(discovery[..n], lowlink[..n], component[..n], componentSize[..], components,
              onStack[..n], tarjanStack[..stackTop], walkNode[..depth], walkEdge[..depth], clock)
    }

    /** The tables hold a state of the abstract walk that keeps its invariant. */
    ghost predicate Valid()
      reads this, first, targets
      reads discovery, lowlink, component, componentSize, onStack, tarjanStack, walkNode, walkEdge
    {
      && Fits() && Inv(g, s) && IsCsr(g, first[..], targets[..])
      && Represents(g, first[..], View(), s)
    }

    constructor (ghost g: Graph, first: array<nat>, targets: array<nat>)
      requires WellFormed(g) && IsCsr(g, first[..], targets[..])
      ensures Valid() && this.g == g && n == |g| && depth == 0 && this.first == first && this.targets == targets
      ensures fresh(discovery) && fresh(lowlink) && fresh(component) && fresh(componentSize)
      ensures fresh(tarjanStack) && fresh(walkNode) && fresh(walkEdge) && fresh(onStack)
    {
      this.g := g;
      var count := first.Length - 1;
      n := count;
      this.first := first;
      this.targets := targets;
      discovery := new int[count + 1](_ => -1);
      lowlink := new int[count + 1];
      component := new nat[count + 1];
      componentSize := new nat[count + 1](_ => 0);
      tarjanStack := new nat[count + 1];
      walkNode := new nat[count + 1];
      walkEdge := new nat[count + 1];
      onStack := new bool[count + 1](_ => false);
      clock, stackTop, components, depth := 0, 0, 0, 0;
      new;
      s := Start(lowlink[..n], component[..n]);
      StartInv(g, lowlink[..n], component[..n]);
      assert discovery[..n] == s.disc;
      assert Represents(g, first[..], View(), s);
    }

    /** Numbers `v` and puts it on both stacks. */
    method Push(v: nat)
      requires Fits() && v < n && stackTop < n && depth < n
      modifies this`clock, this`stackTop, this`depth
      modifies discovery, lowlink, tarjanStack, onStack, walkNode, walkEdge
      ensures Fits() && depth == old(depth) + 1 && View() == Pushed(old(View()), v, first[v])
    {
      discovery[v] := clock;
      lowlink[v] := clock;
      clock := clock + 1;
      tarjanStack[stackTop] := v;
      stackTop := stackTop + 1;
      onStack[v] := true;
      walkNode[depth] := v;
      walkEdge[depth] := first[v];
      depth := depth + 1;
    }

    /** Pops the stack down to and including position `k`, where `node` lies. */
    method PopComponent(node: nat, ghost k: nat)
      requires Fits() && components <= n && k < stackTop && tarjanStack[k] == node
      requires forall i :: 0 <= i < stackTop ==> tarjanStack[i] < n
      requires forall i :: k < i < stackTop ==> tarjanStack[i] != node
      modifies this`stackTop, this`components, component, componentSize, onStack
      ensures Fits() && depth == old(depth) && View() == Popped(old(View()), k)
    {
      ghost var before := View();
      ghost var q := tarjanStack[..stackTop];
      assert q[stackTop..] == [];
      while true
        invariant k < stackTop <= |q| && components == before.components
        invariant onStack[..n] == Marked(before.onStack, q[stackTop..], false)
        invariant component[..n] == Marked(before.comp, q[stackTop..], components)
        invariant componentSize[..] == before.size[components := before.size[components] + |q| - stackTop]
        decreases stackTop
      {
        ghost var gone := q[stackTop..];
        stackTop := stackTop - 1;
        var member := tarjanStack[stackTop];
        MarkedCons(before.onStack, gone, member, false);
        MarkedCons(before.comp, gone, member, components);
        assert q[stackTop..] == [member] + gone;
        onStack[member] := false;
        component[member] := components;
        componentSize[components] := componentSize[components] + 1;
        if member == node {
          break;
        }
      }
      components := components + 1;
    }

    /** Takes one edge of the top of the path without following it. */
    method Advance()
      requires Fits() && depth > 0
      modifies walkEdge
      ensures View() == Advanced(old(View()))
    {
      walkEdge[depth - 1] := walkEdge[depth - 1] + 1;
    }

    /** Takes an edge to the discovered `next`. */
    method NoticeEdge(next: nat)
      requires Fits() && depth > 0 && walkNode[depth - 1] < n && next < n
      modifies walkEdge, lowlink
      ensures View() == Noticed(old(View()), next)
    {
      var node := walkNode[depth - 1];
      walkEdge[depth - 1] := walkEdge[depth - 1] + 1;
      if onStack[next] && discovery[next] < lowlink[node] {
        lowlink[node] := discovery[next];
      }
    }

    /** Drops the top of the path, passing its low number on to its parent. */
    method BackUp()
      requires Fits() && depth > 1 && walkNode[depth - 1] < n && walkNode[depth - 2] < n
      modifies this`depth, lowlink
      ensures Fits() && depth == old(depth) - 1 && View() == Backed(old(View()))
    {
      var node := walkNode[depth - 1];
      depth := depth - 1;
      var parent := walkNode[depth - 1];
      if lowlink[node] < lowlink[parent] {
        lowlink[parent] := lowlink[node];
      }
    }

    /** Follows the next edge of the top of the path. */
    method TakeEdge()
      requires Valid() && depth > 0 && walkNode[depth - 1] < n
      requires walkEdge[depth - 1] < first[walkNode[depth - 1] + 1]
      modifies this`clock, this`stackTop, this`depth, this`s
      modifies discovery, lowlink, tarjanStack, onStack, walkNode, walkEdge
      ensures Valid() && depth > 0 && Progress(g, old(s), s)
    {
      hide Inv, Represents, IsCsr, IsTop, Progress, Descend, Notice, Pushed, Noticed, Remaining;
      ghost var m := View();
      TopEdge(g, first[..], targets[..], m, s);
      var node := walkNode[depth - 1];
      var next := targets[walkEdge[depth - 1]];
      if discovery[next] < 0 {
        Unpacked(g, first[..], m, s);
        DescendStep(g, first[..], targets[..], m, s);
        s := Descend(s, node, next);
        Advance();
        Push(next);
      } else {
        Unpacked(g, first[..], m, s);
        NoticeStep(g, first[..], targets[..], m, s);
        s := Notice(s, node, next);
        NoticeEdge(next);
      }
    }

    /** Leaves the top of the path, which has no edge left: pops its component if it is the
        root of one, and passes its low number on to its parent. */
    method Leave()
      requires Valid() && depth > 0 && walkNode[depth - 1] < n
      requires walkEdge[depth - 1] >= first[walkNode[depth - 1] + 1]
      modifies this`stackTop, this`components, this`depth, this`s
      modifies lowlink, component, componentSize, onStack
      ensures Valid() && depth == old(depth) - 1
      ensures s.cursor == old(s.cursor) && s.disc == old(s.disc)
    {
      hide Inv, Represents, IsCsr, IsTop;
      TopEdge(g, first[..], targets[..], View(), s);
      Unpacked(g, first[..], View(), s);
      var node := walkNode[depth - 1];
      ghost var k := PlaceOnStack(g, first[..], View(), s, node);
      if lowlink[node] == discovery[node] {
        LeaveRipe(node, k);
      } else {
        BottomIsRipe(g, first[..], View(), s);
        RetreatStep(g, first[..], View(), s);
        s := Retreat(s, node, walkNode[depth - 2]);
        BackUp();
      }
    }

    /** Pops the component of the top of the path, at position `k` of the stack. */
    method LeaveRipe(node: nat, ghost k: nat)
      requires Valid() && depth > 0 && walkNode[depth - 1] == node < n && Ripe(g, s, node)
      requires components < n && k < stackTop && tarjanStack[k] == node
      requires forall i :: 0 <= i < stackTop ==> tarjanStack[i] < n
      requires forall i :: k < i < stackTop ==> tarjanStack[i] != node
      modifies this`stackTop, this`components, this`depth, this`s
      modifies lowlink, component, componentSize, onStack
      ensures Valid() && depth == old(depth) - 1
      ensures s.cursor == old(s.cursor) && s.disc == old(s.disc)
    {
      hide Inv, Represents, IsCsr, IsTop, Ripe;
      ghost var m := View();
      RetireStep(g, first[..], m, s, k);
      s := Retire(s, node, m.stack[k..]);
      PopComponent(node, k);
      if depth == 1 {
        depth := 0;
        assert View() == Left(Popped(m, k));
      } else {
        RipeKeepsParent(g, first[..], m, old(s));
        LeftIsBacked(m, k);
        BackUp();
      }
    }

    /** No node that had a number has lost it. */
    twostate predicate Kept()
      reads this
    {
      |old(s).disc| == |s.disc| == n && forall v: nat :: v < n && old(s).disc[v] >= 0 ==> s.disc[v] >= 0
    }

    /** Runs the walk until its path is empty. */
    method Expand()
      requires Valid()
      modifies this, discovery, lowlink, component, componentSize, onStack, tarjanStack, walkNode, walkEdge
      ensures Valid() && depth == 0 && Kept()
    {
      hide Inv, Represents, IsCsr, IsTop, Remaining;
      Unpacked(g, first[..], View(), s);
      while depth > 0
        invariant Valid() && |s.cursor| == n && Kept()
        decreases Remaining(g, s.cursor, n), depth
      {
        TopEdge(g, first[..], targets[..], View(), s);
        Unpacked(g, first[..], View(), s);
        RemainingNonNegative(g, s.cursor, n);
        if walkEdge[depth - 1] < first[walkNode[depth - 1] + 1] {
          TakeEdge();
        } else {
          Leave();
        }
      }
    }

    /** Walks everything reachable from `root`. */
    method WalkFrom(root: nat)
      requires Valid() && depth == 0 && root < n && discovery[root] < 0
      modifies this, discovery, lowlink, component, componentSize, onStack, tarjanStack, walkNode, walkEdge
      ensures Valid() && depth == 0 && discovery[root] >= 0
      ensures forall v: nat :: v < n && old(discovery[v]) >= 0 ==> discovery[v] >= 0
    {
      hide Inv, Represents, IsCsr, Remaining;
      RootStep(g, first[..], View(), s, root);
      Unpacked(g, first[..], View(), s);
      s := Discover(s, root);
      Push(root);
      Expand();
      Unpacked(g, first[..], View(), s);
    }

    /** Two nodes have one component number exactly when each reaches the other, and a
        component counts two or more exactly when its members have company. */
    ghost predicate Assigned()
      reads component, componentSize
    {
      && Layout()
      && (forall u: nat, v: nat :: u < n && v < n ==> (component[u] == component[v] <==> Mutual(g, u, v)))
      && (forall u: nat :: u < n ==> component[u] <= n)
      && (forall u: nat :: u < n ==> (componentSize[component[u]] >= 2 <==> HasCompany(g, u)))
    }

    /** Assigns every node to its strongly connected component. */
    method Run()
      requires Valid() && depth == 0
      modifies this, discovery, lowlink, component, componentSize, onStack, tarjanStack, walkNode, walkEdge
      ensures Assigned()
    {
      hide Inv, Represents, IsCsr;
      for root := 0 to n
        invariant Valid() && depth == 0
        invariant forall v: nat :: v < root ==> discovery[v] >= 0
      {
        if discovery[root] < 0 {
          WalkFrom(root);
        }
      }
      forall u: nat, v: nat | u < n && v < n
        ensures component[u] == component[v] <==> Mutual(g, u, v)
        ensures component[u] <= n
        ensures componentSize[component[u]] >= 2 <==> HasCompany(g, u)
      {
        TablesAtEnd(g, first[..], View(), s, u, v);
      }
    }
  }
}
