/** The database of error texts: a trie of name components, built from the lines of a file. */
module ErrorDatabase {
  import opened Options
  import opened Sequences

  type Path = seq<string>

  /** A line of the file: a name, cut at its dots, and a text. */
  datatype Line = Line(path: Path, text: string)

  /** What looking a name up gives. Without components in the name the node to read is never set. */
  datatype Lookup = Missing | Present(text: Option<string>) | Wild

  // What the database holds ---------------------------------------------------------------------

  predicate Prefix(p: Path, q: Path)
  {
    p <= q
  }

  /** Some line's name starts with `p`. */
  ghost predicate Named(lines: seq<Line>, p: Path)
  {
    exists i :: 0 <= i < |lines| && Prefix(p, lines[i].path)
  }

  /** The text of the last line whose name is exactly `p`. */
  function TextOf(lines: seq<Line>, p: Path): (text: Option<string>)
  {
    if lines == [] then None
    else
      var last := lines[|lines| - 1];
      if last.path == p then Some(last.text) else TextOf(lines[..|lines| - 1], p)
  }

  lemma {:induction false} TextIsLast(lines: seq<Line>, p: Path)
    ensures TextOf(lines, p) == None <==> forall i :: 0 <= i < |lines| ==> lines[i].path != p
    ensures TextOf(lines, p) != None ==>
              exists i :: 0 <= i < |lines| && lines[i] == Line(p, TextOf(lines, p).value) &&
                forall j :: i < j < |lines| ==> lines[j].path != p
  {
    if lines != [] {
      TextIsLast(lines[..|lines| - 1], p);
    }
  }

  // The trie --------------------------------------------------------------------------------------

  class Node {
    const key: string
    ghost const path: Path                // the components from the top down to this node
    var value: Option<string>             // unset until a line ends here
    var next: Node?                       // next sibling
    var child: Node?                      // first child

    constructor (key: string, ghost path: Path)
      ensures this.key == key && this.path == path && value == None && next == null && child == null
    {
      this.key, this.path := key, path;
      value, next, child := None, null, null;
    }
  }

  function First(nodes: seq<Node>): (n: Node?)
  {
    if nodes == [] then null else nodes[0]
  }

  function Last(nodes: seq<Node>): (n: Node?)
  {
    if nodes == [] then null else nodes[|nodes| - 1]
  }

  function Parent(p: Path): (q: Path)
    requires p != []
  {
    p[..|p| - 1]
  }

  /** Sibling keys are unique, and each node's path is its parent's with its own key. */
  ghost predicate Siblings(nodes: seq<Node>, p: Path)
  {
    (forall i :: 0 <= i < |nodes| ==> nodes[i].path == p + [nodes[i].key]) &&
    forall i, j :: 0 <= i < j < |nodes| ==> nodes[i].key != nodes[j].key
  }

  ghost predicate HasKey(nodes: seq<Node>, key: string)
  {
    exists i :: 0 <= i < |nodes| && nodes[i].key == key
  }

  /** The nodes below path `p` are siblings with paths of their own, and `p` itself is a node unless empty. */
  ghost predicate ShapeAt(kids: map<Path, seq<Node>>, p: Path)
    requires p in kids
  {
    Siblings(kids[p], p) && (forall i :: 0 <= i < |kids[p]| ==> kids[p][i].path in kids) &&
    (p != [] ==> Parent(p) in kids && HasKey(kids[Parent(p)], p[|p| - 1]))
  }

  /** The shape of the trie: for every path in it the nodes below, in the order of their list. */
  ghost predicate Shape(kids: map<Path, seq<Node>>)
  {
    [] in kids && forall p :: p in kids ==> ShapeAt(kids, p)
  }

  /** The shape with the node `n` added at the end of the list below `p`. */
  ghost function Grown(kids: map<Path, seq<Node>>, p: Path, n: Node): (r: map<Path, seq<Node>>)
    requires p in kids
  {
    kids[p := kids[p] + [n]][p + [n.key] := []]
  }

  lemma GrownShape(kids: map<Path, seq<Node>>, p: Path, n: Node)
    requires Shape(kids) && p in kids && n.path == p + [n.key] && !HasKey(kids[p], n.key)
    ensures p + [n.key] !in kids && Shape(Grown(kids, p, n))
  {
    hide HasKey, Siblings, Parent;
    var q, r := p + [n.key], Grown(kids, p, n);
    assert Parent(q) == p && q[|q| - 1] == n.key by { ParentOf(p, n.key); }
    ShapeOf(kids, q);
    assert ShapeAt(kids, p);
    SiblingsGrown(kids[p], p, n);
    forall s | s in r
      ensures ShapeAt(r, s)
    {
      if s == q {
        NoSiblings(q);
      } else {
        assert ShapeAt(kids, s);
      }
    }
  }

  lemma ShapeOf(kids: map<Path, seq<Node>>, p: Path)
    requires Shape(kids)
    ensures p in kids ==> ShapeAt(kids, p)
  {
  }

  lemma ParentOf(p: Path, key: string)
    ensures Parent(p + [key]) == p && (p + [key])[|p|] == key
  {
  }

  lemma NoSiblings(p: Path)
    ensures Siblings([], p)
  {
  }

  lemma SiblingsGrown(nodes: seq<Node>, p: Path, n: Node)
    requires Siblings(nodes, p) && n.path == p + [n.key] && !HasKey(nodes, n.key)
    ensures Siblings(nodes + [n], p)
    ensures forall k :: HasKey(nodes + [n], k) <==> k == n.key || HasKey(nodes, k)
  {
    assert (nodes + [n])[|nodes|] == n;
    forall k | HasKey(nodes, k)
      ensures HasKey(nodes + [n], k)
    {
      var i :| 0 <= i < |nodes| && nodes[i].key == k;
      assert (nodes + [n])[i] == nodes[i];
    }
  }

  /** A node has only one place. */
  lemma OnePlace(kids: map<Path, seq<Node>>, p: Path, i: nat, q: Path, j: nat)
    requires Shape(kids) && p in kids && i < |kids[p]| && q in kids && j < |kids[q]|
    requires kids[p][i].path == kids[q][j].path
    ensures p == q && i == j
  {
    assert ShapeAt(kids, p) && ShapeAt(kids, q);
    var n, m := kids[p][i], kids[q][j];
    ParentOf(p, n.key);
    ParentOf(q, m.key);
  }

  /** Where the lists of a grown shape lead: only the end of one list and one first child are new. */
  lemma GrownLinks(kids: map<Path, seq<Node>>, p: Path, n: Node, q: Path, j: nat)
    requires Shape(kids) && p in kids && n.path == p + [n.key] && !HasKey(kids[p], n.key) && q in kids && j < |kids[q]|
    ensures p + [n.key] !in kids
    ensures var r, m := Grown(kids, p, n), kids[q][j];
            q in r && j < |r[q]| && r[q][j] == m && m.path in kids && m.path in r &&
            At<Node?>(r[q], j + 1, null) ==
              (if q == p && j == |kids[p]| - 1 then n else At<Node?>(kids[q], j + 1, null)) &&
            First(r[m.path]) == if m.path == p && kids[p] == [] then n else First(kids[m.path])
  {
    hide HasKey, Siblings;
    assert ShapeAt(kids, q);
    GrownShape(kids, p, n);
  }

  /** The top list starts with the new node only if there was none. */
  lemma TopGrown(kids: map<Path, seq<Node>>, p: Path, n: Node)
    requires Shape(kids) && p in kids
    ensures [] in kids && [] in Grown(kids, p, n)
    ensures First(Grown(kids, p, n)[[]]) == if kids[[]] == [] then n else First(kids[[]])
    ensures kids[[]] == [] <==> First(kids[[]]) == null
  {
    if p != [] {
      TopNotEmpty(kids, p);
    }
  }

  lemma {:induction false} TopNotEmpty(kids: map<Path, seq<Node>>, p: Path)
    requires Shape(kids) && p in kids && p != []
    ensures kids[[]] != []
    decreases |p|
  {
    assert ShapeAt(kids, p);
    if |p| > 1 {
      TopNotEmpty(kids, Parent(p));
    }
  }

  /** The only new place is at the end of the list below `p`. */
  lemma NewPlace(kids: map<Path, seq<Node>>, p: Path, n: Node, q: Path, j: nat)
    requires p in kids && n.path == p + [n.key] && n.path !in kids && q in Grown(kids, p, n) &&
             j < |Grown(kids, p, n)[q]|
    ensures var r := Grown(kids, p, n);
            (q in kids && j < |kids[q]|) ||
            (q == p && j == |kids[p]| && r[q][j] == n && n.path in r && At<Node?>(r[q], j + 1, null) == null &&
             First(r[n.path]) == null)
  {
  }

  class Database {
    var db: Node?
    ghost var kids: map<Path, seq<Node>>
    ghost var Repr: set<Node>

    /** Node `i` below path `p` is linked as the shape says. */
    ghost predicate Linked(p: Path, i: nat)
      requires p in kids && i < |kids[p]|
      reads this`kids, this`Repr, Repr
    {
      var n := kids[p][i];
      n in Repr && n.next == At<Node?>(kids[p], i + 1, null) && n.path in kids && n.child == First(kids[n.path])
    }

    ghost predicate Valid()
      reads this, Repr
    {
      Shape(kids) && db == First(kids[[]]) && forall p, i :: p in kids && 0 <= i < |kids[p]| ==> Linked(p, i)
    }

    /** Node `i` below path `p` has the text that the lines give it. */
    ghost predicate Told(lines: seq<Line>, p: Path, i: nat)
      requires p in kids && i < |kids[p]|
      reads this`kids, this`Repr, Repr
    {
      kids[p][i] in Repr && kids[p][i].value == TextOf(lines, kids[p][i].path)
    }

    /** The nodes are exactly those that the lines call for, with the texts they give. */
    ghost predicate Holds(lines: seq<Line>)
      reads this, Repr
    {
      Valid() && (forall p :: p in kids <==> p == [] || Named(lines, p)) &&
      forall p, i :: p in kids && 0 <= i < |kids[p]| ==> Told(lines, p, i)
    }

    constructor ()
      ensures Holds([])
    {
      db, kids, Repr := null, map[[] := []], {};
    }

    /** Every node below some path has the text that the lines give it. */
    ghost predicate AllTold(lines: seq<Line>)
      reads this, Repr
    {
      Valid() && forall p, i :: p in kids && 0 <= i < |kids[p]| ==> Told(lines, p, i)
    }

    /** `addNode`, where the walk has come to the end of the list below path `p`. */
    method AddNode(parent: Node?, sib: Node?, key: string, ghost p: Path, ghost lines: seq<Line>) returns (n: Node)
      requires AllTold(lines) && TextOf(lines, p + [key]) == None
      requires p in kids && !HasKey(kids[p], key) && sib == Last(kids[p]) && NodeAt(parent, p)
      modifies this, Repr
      ensures AllTold(lines) && fresh(Repr - old(Repr)) && n in Repr
      ensures kids == old(kids)[p := old(kids)[p] + [n]][p + [key] := []] && p + [key] !in old(kids)
      ensures NodeAt(n, p + [key])
    {
      hide Shape, HasKey, At, First, TextOf;
      n := new Node(key, p + [key]);
      ghost var was := kids;
      GrownShape(was, p, n);
      NodesOf(parent, sib, p);
      TopGrown(was, p, n);
      if sib != null {
        sib.next := n;
      } else if parent != null {
        parent.child := n;
      }
      if db == null {
        db := n;
      }
      kids := Grown(was, p, n);
      Repr := Repr + {n};
      forall q, j | q in kids && 0 <= j < |kids[q]|
        ensures Linked(q, j) && Told(lines, q, j)
      {
        NewPlace(was, p, n, q, j);
        if q in was && j < |was[q]| {
          GrownLinks(was, p, n, q, j);
          assert old(Linked(q, j)) && old(Told(lines, q, j));
          var m := was[q][j];
          if m == sib {
            OnePlace(was, q, j, p, |was[p]| - 1);
          }
          assert m.path == p ==> m == parent;
        }
      }
    }

    /** The nodes a walk points at are in the trie. */
    lemma NodesOf(parent: Node?, sib: Node?, p: Path)
      requires Valid() && p in kids && sib == Last(kids[p]) && NodeAt(parent, p)
      ensures sib == null <==> kids[p] == []
      ensures sib != null ==> sib in Repr && sib == kids[p][|kids[p]| - 1]
      ensures parent != null ==> parent in Repr && parent.path == p && p != []
      ensures p == [] ==> parent == null && db == First(kids[p])
      ensures forall q, j :: q in kids && 0 <= j < |kids[q]| && kids[q][j].path == p ==> kids[q][j] == parent
    {
      if kids[p] != [] {
        assert Linked(p, |kids[p]| - 1);
      }
      if parent != null {
        var i :| 0 <= i < |kids[Parent(p)]| && kids[Parent(p)][i] == parent;
        assert Linked(Parent(p), i);
      }
      forall q, j | q in kids && 0 <= j < |kids[q]| && kids[q][j].path == p
        ensures kids[q][j] == parent
      {
        assert ShapeAt(kids, q);
        var i :| 0 <= i < |kids[Parent(p)]| && kids[Parent(p)][i] == parent;
        OnePlace(kids, q, j, Parent(p), i);
      }
    }

    /** `n` is the node with path `p`, or null for the top. */
    ghost predicate NodeAt(n: Node?, p: Path)
      reads this`kids
    {
      if p == [] then n == null
      else Parent(p) in kids && n != null && n in kids[Parent(p)] && n.path == p
    }

    /** The walk along one list: stops at the key, or at the end with `sib` the last node. */
    method FindKey(first: Node?, key: string, ghost p: Path) returns (n: Node?, sib: Node?)
      requires Valid() && p in kids && first == First(kids[p])
      ensures n != null <==> HasKey(kids[p], key)
      ensures n != null ==> NodeAt(n, p + [key]) && p + [key] in kids && n.child == First(kids[p + [key]]) && n in Repr
      ensures n == null ==> sib == Last(kids[p])
    {
      hide Shape;
      n, sib := first, null;
      ghost var i := 0;
      while n != null
        invariant 0 <= i <= |kids[p]| && n == (if i < |kids[p]| then kids[p][i] else null)
        invariant sib == Last(kids[p][..i]) && forall j :: 0 <= j < i ==> kids[p][j].key != key
        decreases |kids[p]| - i
      {
        assert Linked(p, i);
        if n.key == key {
          PathOf(kids, p, i);
          ParentOf(p, key);
          return;
        }
        sib := n;
        n := n.next;
        i := i + 1;
      }
      assert kids[p][..i] == kids[p];
    }

    /** One component of a line's name: the walk goes down to its node, which is added if there is none. */
    method StepDown(parent: Node?, n: Node?, key: string, ghost p: Path, ghost lines: seq<Line>)
      returns (parent': Node, n': Node?)
      requires AllTold(lines) && p in kids && NodeAt(parent, p) && n == First(kids[p])
      requires p + [key] !in kids ==> TextOf(lines, p + [key]) == None
      modifies this, Repr
      ensures AllTold(lines) && fresh(Repr - old(Repr))
      ensures kids.Keys == old(kids).Keys + {p + [key]}
      ensures NodeAt(parent', p + [key]) && n' == First(kids[p + [key]]) && parent' in Repr
    {
      hide Shape, HasKey, NodeAt, First, Last, TextOf, Linked, Told;
      var found, sib := FindKey(n, key, p);
      if found != null {
        parent', n' := found, found.child;
      } else {
        NotBelow(kids, p, key);
        parent' := AddNode(parent, sib, key, p, lines);
        n' := null;
        NoFirst();
      }
    }

    /** One line of the file: its text ends up at the node its name leads to. */
    method AddLine(line: Line, ghost lines: seq<Line>)
      requires Holds(lines)
      modifies this, Repr
      ensures Holds(lines + [line]) && fresh(Repr - old(Repr))
    {
      hide Shape, HasKey, TextOf, NodeAt, Linked, Told;
      var n, parent: Node? := db, null;
      assert NodeAt(parent, []) by { TopIsNode(); }
      ghost var p: Path := [];
      var d := 0;
      while d < |line.path|
        invariant 0 <= d <= |line.path| && p == line.path[..d] && fresh(Repr - old(Repr))
        invariant AllTold(lines) && p in kids && NodeAt(parent, p) && n == First(kids[p])
        invariant forall q :: q in kids <==> q == [] || Named(lines, q) || Prefix(q, p)
        invariant if d > 0 then parent != null && parent in Repr else parent == null
      {
        ghost var q := p + [line.path[d]];
        UnnamedHasNoText(lines, q);
        PrefixesGrow(p, line.path[d]);
        parent, n := StepDown(parent, n, line.path[d], p, lines);
        p := q;
        d := d + 1;
      }
      assert p == line.path;
      NodesOf(parent, Last(kids[p]), p);
      NamedMore(lines, line);
      assert forall q, i :: q in kids && 0 <= i < |kids[q]| ==> Told(lines, q, i);
      SetText(parent, line, lines);
    }

    /** The text goes to the node with the line's path. */
    method SetText(parent: Node?, line: Line, ghost lines: seq<Line>)
      requires AllTold(lines) && (parent != null ==> parent in Repr && parent.path == line.path)
      requires forall q, i :: q in kids && 0 <= i < |kids[q]| && kids[q][i].path == line.path ==> kids[q][i] == parent
      requires forall q :: TextOf(lines + [line], q) == if q == line.path then Some(line.text) else TextOf(lines, q)
      modifies Repr
      ensures AllTold(lines + [line])
    {
      hide Shape, TextOf, First, At;
      if parent != null {
        parent.value := Some(line.text);
      }
      forall q, i | q in kids && 0 <= i < |kids[q]|
        ensures Linked(q, i) && Told(lines + [line], q, i)
      {
        assert old(Linked(q, i)) && old(Told(lines, q, i));
      }
    }

    /** `getFileDataBase`, on the lines that have a name and a text. */
    method Load(lines: seq<Line>)
      requires Holds([])
      modifies this, Repr
      ensures Holds(lines) && fresh(Repr - old(Repr))
    {
      hide Holds;
      for i := 0 to |lines|
        invariant Holds(lines[..i]) && fresh(Repr - old(Repr))
      {
        AddLine(lines[i], lines[..i]);
        assert lines[..i] + [lines[i]] == lines[..i + 1];
      }
      assert lines[..|lines|] == lines;
    }

    /**
     * `getResource`: finds a name exactly when some line's name starts with it, and then gives the
     * text of the last line with just that name; for a name that is only a start, it is unset.
     */
    method GetResource(name: Path, ghost lines: seq<Line>) returns (r: Lookup)
      requires Holds(lines)
      ensures r == if name == [] then Wild else if Named(lines, name) then Present(TextOf(lines, name)) else Missing
    {
      hide Database.Holds, Named, TextOf;
      if name == [] {
        return Wild;
      }
      var found, text := Walk(name, lines);
      r := if found then Present(text) else Missing;
    }

    /** Its loops: down the trie component by component, along the siblings on each level. */
    method Walk(name: Path, ghost lines: seq<Line>) returns (found: bool, text: Option<string>)
      requires Holds(lines) && name != []
      ensures found <==> Named(lines, name)
      ensures text == if found then TextOf(lines, name) else None
    {
      hide Shape, HasKey, TextOf, NodeAt, Linked, Told, First;
      var n, parent: Node? := db, null;
      assert NodeAt(parent, []) by { TopIsNode(); }
      ghost var p: Path := [];
      var d := 0;
      while d < |name|
        invariant 0 <= d <= |name| && p == name[..d] && p in kids && n == First(kids[p])
        invariant if d > 0 then parent != null && NodeAt(parent, p) && parent in Repr else parent == null
      {
        ghost var q := p + [name[d]];
        var found', sib := FindKey(n, name[d], p);
        if found' == null {
          NotBelow(kids, p, name[d]);
          NamedStart(lines, name, d + 1);
          assert q == name[..d + 1];
          return false, None;
        }
        parent, n := found', found'.child;
        p := q;
        d := d + 1;
      }
      assert p == name;
      TextAt(parent, name, lines);
      return true, parent.value;
    }

    lemma TextAt(n: Node?, p: Path, lines: seq<Line>)
      requires Holds(lines) && n != null && p != [] && NodeAt(n, p)
      ensures n in Repr && n.value == TextOf(lines, p)
    {
      var i :| 0 <= i < |kids[Parent(p)]| && kids[Parent(p)][i] == n;
      assert Told(lines, Parent(p), i);
    }

    lemma NoFirst()
      ensures First([]) == null
    {
    }

    lemma TopIsNode()
      ensures NodeAt(null, [])
    {
    }
  }

  lemma NamedStart(lines: seq<Line>, p: Path, k: nat)
    requires k <= |p|
    ensures Named(lines, p) ==> Named(lines, p[..k])
  {
    if Named(lines, p) {
      var i :| 0 <= i < |lines| && Prefix(p, lines[i].path);
      assert Prefix(p[..k], lines[i].path);
    }
  }

  lemma NotBelow(kids: map<Path, seq<Node>>, p: Path, key: string)
    requires Shape(kids) && p in kids && !HasKey(kids[p], key)
    ensures p + [key] !in kids
  {
    ShapeOf(kids, p + [key]);
    ParentOf(p, key);
  }

  /** A path that no line's name starts with has no text. */
  lemma UnnamedHasNoText(lines: seq<Line>, p: Path)
    ensures !Named(lines, p) ==> TextOf(lines, p) == None
  {
    TextIsLast(lines, p);
  }

  lemma PrefixesGrow(p: Path, key: string)
    ensures forall q :: Prefix(q, p + [key]) <==> Prefix(q, p) || q == p + [key]
  {
  }

  lemma NamedMore(lines: seq<Line>, line: Line)
    ensures forall q :: Named(lines + [line], q) <==> Named(lines, q) || Prefix(q, line.path)
    ensures forall q :: TextOf(lines + [line], q) == if q == line.path then Some(line.text) else TextOf(lines, q)
  {
    var more := lines + [line];
    assert more[..|more| - 1] == lines && more[|lines|] == line;
    forall q | Named(lines, q)
      ensures Named(more, q)
    {
      var i :| 0 <= i < |lines| && Prefix(q, lines[i].path);
      assert Prefix(q, more[i].path);
    }
  }

  lemma PathOf(kids: map<Path, seq<Node>>, p: Path, i: nat)
    requires Shape(kids) && p in kids && i < |kids[p]|
    ensures kids[p][i].path == p + [kids[p][i].key]
  {
    assert ShapeAt(kids, p);
  }
}
