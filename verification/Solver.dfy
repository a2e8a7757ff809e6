/** The backtracking solver: mutually recursive search over a tree of nodes that is built in
    place, and the count of the leaves of that tree. */
module Solver {
  import opened SolutionTree

  class TreeNode<T(!new)> {
    const value: T
    const predecessor: TreeNode?<T>
    /** The values on the chain of predecessors, the node itself last: what reject and accept
        can read from the node they are given. */
    const path: seq<T>
    var successors: seq<TreeNode<T>>
    ghost var tree: Tree<T>
    ghost var Repr: set<TreeNode<T>>

    ghost predicate Valid()
      reads this, Repr
      decreases Repr
    {
      && this in Repr
      && tree.value == value && |tree.successors| == |successors|
      && forall i :: 0 <= i < |successors| ==>
           && successors[i] in Repr && successors[i].Repr <= Repr && this !in successors[i].Repr
           && successors[i].Valid() && successors[i].tree == tree.successors[i]
    }

    constructor (value: T, predecessor: TreeNode?<T>)
      ensures Valid() && fresh(Repr) && successors == []
      ensures this.value == value && this.predecessor == predecessor
      ensures path == if predecessor == null then [value] else predecessor.path + [value]
      ensures tree == Node(value, [])
    {
      this.value, this.predecessor := value, predecessor;
      path := if predecessor == null then [value] else predecessor.path + [value];
      successors := [];
      tree := Node(value, []);
      Repr := {this};
    }

    method Add(treeNode: TreeNode<T>)
      requires Valid() && treeNode.Valid() && this !in treeNode.Repr
      modifies this
      ensures Valid() && Repr == old(Repr) + treeNode.Repr
      ensures successors == old(successors) + [treeNode]
      ensures tree == Node(value, old(tree.successors) + [treeNode.tree])
    {
      successors := successors + [treeNode];
      tree := Node(value, tree.successors + [treeNode.tree]);
      Repr := Repr + treeNode.Repr;
    }

    method Clear()
      modifies this
      ensures Valid() && Repr == {this} && successors == [] && tree == Node(value, [])
    {
      successors := [];
      tree := Node(value, []);
      Repr := {this};
    }

    /** The number of leaves below this node; a node without successors is its own leaf. */
    method CountSolutions() returns (result: nat)
      requires Valid()
      ensures result == |PathsOf(tree)|
      decreases Repr
    {
      result := 0;
      if successors != [] {
        for ii := 0 to |successors|
          invariant result == |Paths(tree.successors[..ii])|
        {
          var below := successors[ii].CountSolutions();
          PathsAppend(tree.successors[..ii], [tree.successors[ii]]);
          OnePath(tree.successors[ii]);
          assert tree.successors[..ii + 1] == tree.successors[..ii] + [tree.successors[ii]];
          result := result + below;
        }
        assert tree.successors[..|successors|] == tree.successors;
      } else {
        result := 1;
      }
    }
  }

  class Solver<T(!new)> {
    const problem: Problem<T>
    const root: TreeNode<T>

    constructor (problem: Problem<T>, initial: T)
      ensures this.problem == problem && root.Valid() && fresh(root.Repr)
    {
      this.problem := problem;
      root := new TreeNode(initial, null);
    }

    /** Builds the tree of all solutions, and says whether there is one. */
    method Apply(ghost b: Bounds<T>) returns (found: bool)
      requires Finite(problem, b)
      modifies root
      ensures root.Valid() && root.tree.successors == Search(problem, b)
      ensures found <==> exists s :: Solution(problem, b, s)
    {
      root.Clear();
      var ii := problem.first(0, problem.start);
      ghost var left := b.count(0, problem.start);
      ghost var rest := Range(problem, b, 0, problem.start);
      ghost var grown, whole := [], Search(problem, b);
      while !problem.stop(0, ii)
        invariant root.Valid() && fresh(root.Repr - {root})
        invariant root.tree.successors == grown
        invariant Stops(problem, 0, ii, left) && rest == Candidates(problem, 0, ii, left)
        invariant forall v :: v in rest ==> v in Range(problem, b, 0, problem.start)
        invariant grown + Roots(problem, b, rest) == whole
        decreases left
      {
        NextCandidate(problem, 0, ii, left);
        AddRoot(ii, b);
        Associate(grown, Root(problem, b, ii), Roots(problem, b, rest[1..]));
        grown := grown + Root(problem, b, ii);
        ii, left, rest := problem.next(0, ii), left - 1, rest[1..];
      }
      found := root.successors != [];
      SomeSolutionIffGrown(problem, b);
    }

    /** The loop body of apply: one first step, kept if some solution begins with it. */
    method AddRoot(value: T, ghost b: Bounds<T>)
      requires Finite(problem, b) && value in Range(problem, b, 0, problem.start) && root.Valid()
      modifies root
      ensures root.Valid() && fresh(root.Repr - old(root.Repr))
      ensures root.tree.successors == old(root.tree.successors) + Root(problem, b, value)
    {
      RootIsPartial(problem, b, value);
      var solution := new TreeNode(value, null);
      var explored := ExploreSolutions(1, solution, b);
      if explored {
        root.Add(solution);
      }
    }

    method ExploreSolutions(depth: int, onTestSolution: TreeNode<T>, ghost b: Bounds<T>) returns (hasSolution: bool)
      requires Finite(problem, b) && Partial(problem, b, onTestSolution.path)
      requires depth == |onTestSolution.path| && onTestSolution.path[depth - 1] == onTestSolution.value
      requires onTestSolution.Valid() && onTestSolution.successors == []
      modifies onTestSolution
      ensures onTestSolution.Valid() && fresh(onTestSolution.Repr - old(onTestSolution.Repr))
      ensures onTestSolution.tree.successors ==
              Grow(problem, b, onTestSolution.path, Steps(problem, b, onTestSolution.path))
      ensures hasSolution <==> onTestSolution.successors != []
      decreases b.height(onTestSolution.path), 1
    {
      hasSolution := false;
      ghost var path := onTestSolution.path;
      var ii := problem.first(depth, onTestSolution.value);
      ghost var left := b.count(depth, onTestSolution.value);
      ghost var rest := Steps(problem, b, path);
      ghost var grown, whole := [], Grow(problem, b, path, rest);
      assert Ends(problem, b, path);
      while !problem.stop(depth, ii)
        invariant onTestSolution.Valid() && fresh(onTestSolution.Repr - old(onTestSolution.Repr))
        invariant onTestSolution.tree.successors == grown && (hasSolution <==> grown != [])
        invariant Stops(problem, depth, ii, left) && rest == Candidates(problem, depth, ii, left)
        invariant forall c :: c in rest ==> c in Steps(problem, b, path)
        invariant grown + Grow(problem, b, path, rest) == whole
        decreases left
      {
        NextCandidate(problem, depth, ii, left);
        var found := Backtracking(depth, onTestSolution, ii, b);
        if found {
          hasSolution := true;
        }
        Associate(grown, Branch(problem, b, path, ii), Grow(problem, b, path, rest[1..]));
        grown := grown + Branch(problem, b, path, ii);
        ii, left, rest := problem.next(depth, ii), left - 1, rest[1..];
      }
    }

    method Backtracking(depth: int, onTestSolution: TreeNode<T>, candidate: T, ghost b: Bounds<T>) returns (found: bool)
      requires Finite(problem, b) && Partial(problem, b, onTestSolution.path)
      requires depth == |onTestSolution.path| && candidate in Steps(problem, b, onTestSolution.path)
      requires onTestSolution.Valid()
      modifies onTestSolution
      ensures onTestSolution.Valid() && fresh(onTestSolution.Repr - old(onTestSolution.Repr))
      ensures onTestSolution.tree.successors ==
              old(onTestSolution.tree.successors) + Branch(problem, b, onTestSolution.path, candidate)
      ensures found <==> Branch(problem, b, onTestSolution.path, candidate) != []
      decreases b.height(onTestSolution.path), 0
    {
      if problem.reject(onTestSolution.path, candidate) { return false; }
      if problem.accept(onTestSolution.path, candidate) {
        var step := new TreeNode(candidate, onTestSolution);
        onTestSolution.Add(step);
        return true;
      }
      PartialGrows(problem, b, onTestSolution.path, candidate);
      var partialSolution := new TreeNode(candidate, onTestSolution);
      var explored := ExploreSolutions(depth + 1, partialSolution, b);
      if !explored {
        return false;
      }
      onTestSolution.Add(partialSolution);
      found := true;
    }
  }
}
