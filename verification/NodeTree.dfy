/** The archive's path tree: nodes with named children and a parent. */
module NodeTree {
  import opened PathNames

  /** n's links inside the tree are two-way, and its name is one path component. */
  ghost predicate NodeOk(n: Node, root: Node, nodes: set<Node>)
    requires n in nodes
    reads nodes
  {
    && (forall s :: s in n.childs ==>
      n.childs[s] in nodes && n.childs[s].parent == n && n.childs[s].sname == s && n.childs[s] != root)
    && '/' !in n.sname
    && (n == root ==> n.parent == null && n.names == [])
    && (n != root ==> LinkedUp(n, nodes))
  }

  ghost predicate LinkedUp(n: Node, nodes: set<Node>)
    requires n in nodes
    reads nodes
  {
    && n.parent != null && n.parent in nodes
    && n.sname in n.parent.childs && n.parent.childs[n.sname] == n
    && n.names == n.parent.names + [n.sname]
  }

  ghost predicate TreeOk(root: Node, nodes: set<Node>)
    reads nodes
  {
    root in nodes && forall n :: n in nodes ==> NodeOk(n, root, nodes)
  }

  /** Some node is reached from the root by these names. */
  ghost predicate Reached(q: seq<string>, nodes: set<Node>)
    reads nodes
  {
    exists n :: n in nodes && n.names == q
  }

  // ---------- the names identify the nodes ----------

  lemma {:induction false} NamesInjective(a: Node, b: Node, root: Node, nodes: set<Node>)
    requires TreeOk(root, nodes) && a in nodes && b in nodes && a.names == b.names
    ensures a == b
    decreases |a.names|
  {
    assert NodeOk(a, root, nodes) && NodeOk(b, root, nodes);
    if a == root || b == root {
    } else {
      assert a.names[..|a.names| - 1] == a.parent.names && b.names[..|b.names| - 1] == b.parent.names;
      NamesInjective(a.parent, b.parent, root, nodes);
      assert a.names[|a.names| - 1] == a.sname && b.names[|b.names| - 1] == b.sname;
    }
  }

  /** With a node, all nodes on the way to it are in the tree. */
  lemma {:induction false} Ancestor(n: Node, k: nat, root: Node, nodes: set<Node>) returns (a: Node)
    requires TreeOk(root, nodes) && n in nodes && k <= |n.names|
    ensures a in nodes && a.names == n.names[..k]
    decreases |n.names|
  {
    assert NodeOk(n, root, nodes);
    if k == |n.names| {
      a := n;
    } else {
      a := Ancestor(n.parent, k, root, nodes);
      assert n.names[..k] == n.parent.names[..k];
    }
  }

  /** A node without a child s has nothing below s. */
  lemma NothingBelow(n: Node, s: string, rest: seq<string>, root: Node, nodes: set<Node>)
    requires TreeOk(root, nodes) && n in nodes && s !in n.childs
    ensures !Reached(n.names + ([s] + rest), nodes)
  {
    if Reached(n.names + ([s] + rest), nodes) {
      var m :| m in nodes && m.names == n.names + ([s] + rest);
      var c := Ancestor(m, |n.names| + 1, root, nodes);
      assert c.names == n.names + [s];
      assert NodeOk(c, root, nodes);
      assert c.names[..|n.names|] == c.parent.names && c.names[|n.names|] == c.sname;
      NamesInjective(c.parent, n, root, nodes);
      assert false;
    }
  }

  lemma ChildOk(n: Node, s: string, root: Node, nodes: set<Node>)
    requires TreeOk(root, nodes) && n in nodes && s in n.childs
    ensures n.childs[s] in nodes && n.childs[s].names == n.names + [s] && n.childs[s].parent == n && n.childs[s] != root
    ensures Reached(n.names + [s], nodes)
  {
    assert NodeOk(n, root, nodes);
    assert NodeOk(n.childs[s], root, nodes);
  }

  lemma Onward(names: seq<string>, name: string, rest: seq<string>)
    ensures names + ([name] + rest) == (names + [name]) + rest
    ensures names + [] == names && [name] + [] == [name]
  {
  }

  const NAME_BUFFER := 255

  /** find, on its way down existing children, meets a component that does not fit its buffer. */
  ghost predicate Overruns(above: seq<string>, path: string, nodes: set<Node>)
    reads nodes
    decreases |path|
  {
    HasSlash(path) &&
    var name := path[..FirstSlash(path)];
    || |name| >= NAME_BUFFER
    || (Reached(above + [name], nodes) && Overruns(above + [name], path[FirstSlash(path) + 1..], nodes))
  }

  /** Every component that is followed by a slash fits. */
  predicate FitsBuffer(path: string)
    decreases |path|
  {
    HasSlash(path) ==> FirstSlash(path) < NAME_BUFFER && FitsBuffer(path[FirstSlash(path) + 1..])
  }

  predicate AllFit(c: seq<string>) {
    forall k :: 0 <= k < |c| - 1 ==> |c[k]| < NAME_BUFFER
  }

  lemma AllFitFirst(name: string, rest: seq<string>)
    requires rest != []
    ensures AllFit([name] + rest) <==> |name| < NAME_BUFFER && AllFit(rest)
  {
    var c := [name] + rest;
    if AllFit(c) {
      assert |c[0]| < NAME_BUFFER;
      forall k | 0 <= k < |rest| - 1 ensures |rest[k]| < NAME_BUFFER {
        assert rest[k] == c[k + 1];
      }
    }
  }

  lemma {:induction false} FitsBufferExact(path: string)
    ensures FitsBuffer(path) <==> AllFit(Components(path))
    decreases |path|
  {
    hide AllFit;
    ComponentsStep(path);
    if !HasSlash(path) {
      assert AllFit([path]) by { OneFits(path); }
    } else {
      var rest := path[FirstSlash(path) + 1..];
      FitsBufferExact(rest);
      AllFitFirst(path[..FirstSlash(path)], Components(rest));
    }
  }

  lemma OneFits(name: string)
    ensures AllFit([name])
  {
  }

  /** A path that fits never overruns, whatever the tree. */
  lemma {:induction false} FittingPath(above: seq<string>, path: string, nodes: set<Node>)
    requires FitsBuffer(path)
    ensures !Overruns(above, path, nodes)
    decreases |path|
  {
    if !HasSlash(path) {
    } else {
      FittingPath(above + [path[..FirstSlash(path)]], path[FirstSlash(path) + 1..], nodes);
    }
  }

  /** 254 characters fit. */
  lemma ShortNames(above: seq<string>, path: string, nodes: set<Node>)
    requires forall k :: 0 <= k < |Components(path)| - 1 ==> |Components(path)[k]| <= 254
    ensures FitsBuffer(path) && !Overruns(above, path, nodes)
  {
    FitsBufferExact(path);
    FittingPath(above, path, nodes);
  }

  /** For the path of a node in the tree, it is the exact condition. */
  lemma {:induction false} OverrunOfNode(above: seq<string>, path: string, n: Node, root: Node, nodes: set<Node>)
    requires TreeOk(root, nodes) && n in nodes && n.names == above + Components(path)
    ensures Overruns(above, path, nodes) <==> !FitsBuffer(path)
    decreases |path|
  {
    hide TreeOk;
    ComponentsStep(path);
    if !HasSlash(path) {
    } else {
      var name, rest := path[..FirstSlash(path)], path[FirstSlash(path) + 1..];
      var a := Ancestor(n, |above| + 1, root, nodes);
      assert a.names == above + [name];
      Onward(above, name, Components(rest));
      OverrunOfNode(above + [name], rest, n, root, nodes);
    }
  }

  class Node {
    var sname: string
    var isDir: bool
    var childs: map<string, Node>
    var parent: Node?
    ghost var names: seq<string>   // the way from the root

    constructor (parent: Node?, name: string, ghost names: seq<string>)
      ensures this.parent == parent && sname == name && !isDir && childs == map[] && this.names == names
    {
      this.parent, sname, isDir, childs := parent, name, false, map[];
      this.names := names;
    }

    /** The node below this one that the path names, or null when there is none. A component with a
        slash behind it is copied to a buffer of 255 characters: when it does not fit, the run ends. */
    method Find(path: string, ghost root: Node, ghost nodes: set<Node>) returns (node: Node?, overrun: bool)
      requires TreeOk(root, nodes) && this in nodes
      ensures overrun <==> Overruns(names, path, nodes)
      ensures node != null ==> !overrun && node in nodes && node.names == names + FindNames(path)
      ensures node == null ==> overrun || !Reached(names + FindNames(path), nodes)
      decreases |path|
    {
      hide TreeOk, Reached;
      overrun := false;
      if path == "" {
        Onward(names, "", []);
        return this, false;
      }
      if HasSlash(path) {
        var name, rest := path[..FirstSlash(path)], path[FirstSlash(path) + 1..];
        if |name| >= NAME_BUFFER {
          return null, true;
        }
        Onward(names, name, FindNames(rest));
        if name in childs {
          ChildOk(this, name, root, nodes);
          node, overrun := childs[name].Find(rest, root, nodes);
        } else {
          NothingBelow(this, name, FindNames(rest), root, nodes);
          NothingBelow(this, name, [], root, nodes);
          Onward(names, name, []);
          return null, false;
        }
      } else {
        Onward(names, path, []);
        if path in childs {
          ChildOk(this, path, root, nodes);
          return childs[path], false;
        }
        NothingBelow(this, path, [], root, nodes);
        return null, false;
      }
    }

    /** The names joined by slashes. */
    method Fullname(ghost root: Node, ghost nodes: set<Node>) returns (name: string)
      requires TreeOk(root, nodes) && this in nodes
      ensures name == if this == root then sname else Join(names)
      decreases |names|
    {
      assert NodeOk(this, root, nodes);
      if parent == null {
        return sname;
      }
      assert NodeOk(parent, root, nodes);
      if parent.parent == null {
        assert names == [sname];
        return sname;
      }
      var above := parent.Fullname(root, nodes);
      assert names[..|names| - 1] == parent.names && names[|names| - 1] == sname;
      return above + "/" + sname;
    }

    /** q is one of these names extended by one or more of the components. */
    static ghost predicate Leads(names: seq<string>, c: seq<string>, q: seq<string>) {
      |names| < |q| && names <= q && q <= names + c
    }

    static lemma LeadsStep(names: seq<string>, name: string, rest: seq<string>, q: seq<string>)
      ensures Leads(names, [name] + rest, q) <==> q == names + [name] || Leads(names + [name], rest, q)
    {
      Onward(names, name, rest);
      if Leads(names, [name] + rest, q) {
        assert q[|names|] == (names + ([name] + rest))[|names|] == name;
        assert q[..|names| + 1] == names + [name];
      }
      if q == names + [name] || Leads(names + [name], rest, q) {
        assert names + [name] <= q;
      }
    }

    static lemma LeadsSteps(names: seq<string>, name: string, rest: seq<string>)
      ensures forall q :: Leads(names, [name] + rest, q) <==> q == names + [name] || Leads(names + [name], rest, q)
      ensures forall q :: !Leads(names, [], q)
    {
      forall q ensures Leads(names, [name] + rest, q) <==> q == names + [name] || Leads(names + [name], rest, q) {
        LeadsStep(names, name, rest, q);
      }
    }

    /** Adds the nodes that the path needs, from this one down; cuts the path buffer at its slashes. */
    method Insert(path: array<char>, start: nat, ghost root: Node, ghost nodes: set<Node>)
      returns (node: Node, ghost nodes': set<Node>)
      requires TreeOk(root, nodes) && this in nodes && Terminated(path[..], start)
      modifies nodes, path
      ensures TreeOk(root, nodes') && nodes <= nodes' && fresh(nodes' - nodes)
      ensures node in nodes' && node.names == old(names) + Components(old(CString(path[..], start)))
      ensures forall q :: Reached(q, nodes') <==>
        old(Reached(q, nodes)) || Leads(old(names), Components(old(CString(path[..], start))), q)
      ensures forall n :: n in nodes ==> n.names == old(n.names) && n.isDir == old(n.isDir)
      ensures forall n :: n in nodes' - nodes ==> (n.isDir <==> n != node)
      ensures path[..] == SlashesCut(old(path[..]), start)
      decreases path.Length - start, 2
    {
      hide TreeOk, Reached, Leads, SlashesCut, Components, CString, FirstSlash;
      SlashesCutStep(path[..], start);
      ComponentsStep(CString(path[..], start));
      var dir, path2 := CutAtSlash(path, start);
      var name := CString(path[..], start);
      if dir {
        node, nodes' := InsertDir(name, path, path2, root, nodes);
      } else {
        node, nodes' := InsertLeaf(name, root, nodes);
      }
    }

    /** The first component is a directory: go on below it. */
    method InsertDir(name: string, path: array<char>, path2: nat, ghost root: Node, ghost nodes: set<Node>)
      returns (node: Node, ghost nodes': set<Node>)
      requires TreeOk(root, nodes) && this in nodes && Terminated(path[..], path2) && '/' !in name
      modifies nodes, path
      ensures TreeOk(root, nodes') && nodes <= nodes' && fresh(nodes' - nodes)
      ensures node in nodes' && node.names == old(names) + ([name] + Components(old(CString(path[..], path2))))
      ensures forall q :: Reached(q, nodes') <==>
        old(Reached(q, nodes)) || Leads(old(names), [name] + Components(old(CString(path[..], path2))), q)
      ensures forall n :: n in nodes ==> n.names == old(n.names) && n.isDir == old(n.isDir)
      ensures forall n :: n in nodes' - nodes ==> (n.isDir <==> n != node)
      ensures path[..] == SlashesCut(old(path[..]), path2)
      decreases path.Length - path2, 3
    {
      hide TreeOk, Reached, Leads, SlashesCut;
      ghost var above, rest := names, Components(CString(path[..], path2));
      LeadsSteps(above, name, rest);
      Onward(above, name, rest);
      if name in childs {
        ChildOk(this, name, root, nodes);
        node, nodes' := childs[name].Insert(path, path2, root, nodes);
      } else {
        var child, nodes1 := AddChild(name, true, root, nodes);
        node, nodes' := child.Insert(path, path2, root, nodes1);
      }
    }

    /** The last component: the existing node of that name, or a new one. */
    method InsertLeaf(name: string, ghost root: Node, ghost nodes: set<Node>)
      returns (node: Node, ghost nodes': set<Node>)
      requires TreeOk(root, nodes) && this in nodes && '/' !in name
      modifies nodes
      ensures TreeOk(root, nodes') && nodes <= nodes' && fresh(nodes' - nodes)
      ensures node in nodes' && node.names == old(names) + [name]
      ensures forall q :: Reached(q, nodes') <==> old(Reached(q, nodes)) || Leads(old(names), [name], q)
      ensures forall n :: n in nodes ==> n.names == old(n.names) && n.isDir == old(n.isDir)
      ensures forall n :: n in nodes' - nodes ==> n == node && !n.isDir
    {
      hide TreeOk, Reached, Leads;
      LeadsSteps(names, name, []);
      LeadsSteps(names + [name], name, []);
      Onward(names, name, []);
      if name in childs {
        ChildOk(this, name, root, nodes);
        node, nodes' := childs[name], nodes;
      } else {
        node, nodes' := AddChild(name, false, root, nodes);
      }
    }

    /** The string from start on in b was cut at its first slash, if it has one. */
    static ghost predicate IsCut(b: seq<char>, start: nat, c: seq<char>, dir: bool, path2: nat) {
      var s := CString(b, start);
      && (dir <==> HasSlash(s))
      && if dir then
        && start + FirstSlash(s) < |b| && c == b[start + FirstSlash(s) := NUL]
        && CString(c, start) == s[..FirstSlash(s)]
        && path2 == start + FirstSlash(s) + 1
        && Terminated(c, path2) && CString(c, path2) == s[FirstSlash(s) + 1..]
      else
        c == b
    }

    /** The scan of insert: the first slash becomes a NUL. */
    static method CutAtSlash(path: array<char>, start: nat) returns (dir: bool, path2: nat)
      requires Terminated(path[..], start)
      modifies path
      ensures IsCut(old(path[..]), start, path[..], dir, path2)
    {
      path2 := start;
      dir := false;
      ghost var b, s := path[..], CString(path[..], start);
      SameChars(b, start, s);
      hide CString, IsCut, HasSlash, Terminated, StringAt, Scanned;
      while true
        invariant start <= path2 <= start + |s| < path.Length && path[..] == b && !dir
        invariant Scanned(s, path2 - start)
        decreases path.Length - path2
      {
        var c;
        dir, c := ScanChar(path, path2, start, s);
        path2 := path2 + 1;
        if c == NUL {
          break;
        }
      }
      if !dir {
        NotCut(b, start, s, path2);
      }
    }

    /** One pass of it. */
    static method ScanChar(path: array<char>, i: nat, ghost start: nat, ghost s: string) returns (dir: bool, c: char)
      requires Terminated(path[..], start) && s == CString(path[..], start) && StringAt(path[..], start, s)
      requires start <= i && Scanned(s, i - start)
      modifies path
      ensures dir ==> c == NUL && IsCut(old(path[..]), start, path[..], true, i + 1)
      ensures !dir ==> path[..] == old(path[..]) && (c == NUL <==> i == start + |s|)
      ensures !dir && c == NUL ==> !HasSlash(s)
      ensures !dir && c != NUL ==> Scanned(s, i + 1 - start)
    {
      hide CString, IsCut, HasSlash, Terminated, StringAt, Scanned;
      ghost var b := path[..];
      CharAt(b, start, s, i);
      dir := false;
      if path[i] == '/' {
        dir := true;
        CutString(b, start, s, i - start);
        PutNul(path, i);
      }
      c := path[i];
    }

    /** `*path2 = 0` */
    static method PutNul(path: array<char>, i: nat)
      requires i < path.Length
      modifies path
      ensures path[..] == old(path[..])[i := NUL] && path[i] == NUL
    {
      path[i] := NUL;
    }

    static lemma NotCut(b: seq<char>, start: nat, s: string, path2: nat)
      requires s == CString(b, start) && !HasSlash(s)
      ensures IsCut(b, start, b, false, path2)
    {
    }

    /** s stands at start, with its NUL behind it. */
    static ghost predicate StringAt(b: seq<char>, start: nat, s: string) {
      start + |s| < |b| && b[start..start + |s|] == s && b[start + |s|] == NUL && NUL !in s
    }

    /** The first n characters are no slashes. */
    static ghost predicate Scanned(s: string, n: int) {
      0 <= n <= |s| && '/' !in s[..n]
    }

    static lemma CharAt(b: seq<char>, start: nat, s: string, i: nat)
      requires StringAt(b, start, s) && start <= i && Scanned(s, i - start)
      ensures i < |b|
      ensures b[i] == if i < start + |s| then s[i - start] else NUL
      ensures b[i] == NUL <==> i == start + |s|
      ensures b[i] == NUL ==> !HasSlash(s)
      ensures b[i] != NUL && b[i] != '/' ==> Scanned(s, i + 1 - start)
    {
      if i < start + |s| {
        assert b[start..start + |s|][i - start] == s[i - start];
        assert s[..i + 1 - start] == s[..i - start] + [s[i - start]];
      } else {
        assert s[..|s|] == s;
      }
    }

    static lemma CutString(b: seq<char>, start: nat, s: string, i: nat)
      requires Terminated(b, start) && s == CString(b, start) && i < |s| && s[i] == '/' && Scanned(s, i)
      ensures start + |s| < |b| && IsCut(b, start, b[start + i := NUL], true, start + i + 1)
    {
      hide CString, FirstSlash;
      FirstSlashIs(s, i);
      var c := b[start + i := NUL];
      SameChars(b, start, s);
      assert c[start..start + i] == s[..i] by {
        assert b[start..start + |s|][..i] == b[start..start + i];
      }
      CStringIs(c, start, s[..i]);
      assert c[start + i + 1..start + |s|] == s[i + 1..] by {
        assert b[start..start + |s|][i + 1..] == b[start + i + 1..start + |s|];
      }
      CStringIs(c, start + i + 1, s[i + 1..]);
    }

    /** After all cuts the slashes of the string are NULs, and nothing else has changed. */
    static lemma {:induction false} SlashesCutAt(b: seq<char>, start: nat, i: nat)
      requires Terminated(b, start) && i < |b|
      ensures SlashesCut(b, start)[i] == if start <= i < start + |CString(b, start)| && b[i] == '/' then NUL else b[i]
      decreases |b| - start
    {
      hide CString, SlashesCut, FirstSlash, StringAt, Scanned;
      var s := CString(b, start);
      SlashesCutStep(b, start);
      SameChars(b, start, s);
      if !HasSlash(s) {
        if start <= i < start + |s| {
          assert b[i] == s[i - start];
        }
      } else {
        var f := FirstSlash(s);
        CutAtFirst(b, start, s, f, i);
        SlashesCutAt(b[start + f := NUL], start + f + 1, i);
      }
    }

    /** Every slash of the string has become a NUL, and nothing else has changed. */
    static ghost predicate SlashesGone(b: seq<char>, start: nat, c: seq<char>) {
      && |c| == |b|
      && forall i :: 0 <= i < |b| ==>
        c[i] == if start <= i < start + |CString(b, start)| && b[i] == '/' then NUL else b[i]
    }

    static lemma AllCut(b: seq<char>, start: nat)
      requires Terminated(b, start)
      ensures SlashesGone(b, start, SlashesCut(b, start))
    {
      forall i | 0 <= i < |b|
        ensures SlashesCut(b, start)[i]
             == if start <= i < start + |CString(b, start)| && b[i] == '/' then NUL else b[i]
      {
        SlashesCutAt(b, start, i);
      }
    }

    static lemma CutAtFirst(b: seq<char>, start: nat, s: string, f: nat, i: nat)
      requires Terminated(b, start) && s == CString(b, start) && HasSlash(s) && f == FirstSlash(s) && i < |b|
      ensures f < |s| && start + |s| < |b|
      ensures var c := b[start + f := NUL];
        Terminated(c, start + f + 1) && |CString(c, start + f + 1)| == |s| - f - 1
      ensures b[start + f] == '/' && (start <= i < start + f ==> b[i] != '/')
    {
      hide CString, StringAt;
      SameChars(b, start, s);
      CutString(b, start, s, f);
      assert b[start + f] == b[start..start + |s|][f];
      if start <= i < start + f {
        assert b[i] == b[start..start + |s|][i - start] == s[..f][i - start];
      }
    }

    static lemma SameChars(b: seq<char>, start: nat, s: string)
      requires Terminated(b, start) && s == CString(b, start)
      ensures start + |s| < |b| && StringAt(b, start, s) && Scanned(s, 0)
      ensures b[start..start + |s|] == s && b[start + |s|] == NUL
    {
      forall k | 0 <= k < |s| ensures b[start + k] == s[k] {
        CStringAt(b, start, k);
      }
      CStringAt(b, start, |s|);
    }

    /** A new child of this node. */
    method AddChild(name: string, dir: bool, ghost root: Node, ghost nodes: set<Node>)
      returns (child: Node, ghost nodes': set<Node>)
      requires TreeOk(root, nodes) && this in nodes && name !in childs && '/' !in name
      modifies this
      ensures TreeOk(root, nodes') && nodes' == nodes + {child} && fresh(child)
      ensures child.names == old(names) + [name] && child.isDir == dir
      ensures forall q :: Reached(q, nodes') <==> old(Reached(q, nodes)) || q == old(names) + [name]
      ensures forall n :: n in nodes ==> n.names == old(n.names) && n.isDir == old(n.isDir)
    {
      child := new Node(this, name, names + [name]);
      childs := childs[name := child];
      child.isDir := dir;
      nodes' := nodes + {child};
      forall n | n in nodes' ensures NodeOk(n, root, nodes') {
        if n != child {
          assert old(NodeOk(n, root, nodes));
        }
      }
      forall q ensures Reached(q, nodes') <==> old(Reached(q, nodes)) || q == names + [name] {
        if q == names + [name] {
          assert child in nodes' && child.names == q;
        } else if old(Reached(q, nodes)) {
          var n :| n in nodes && old(n.names) == q;
          assert n in nodes' && n.names == q;
        }
      }
    }
  }

  // ---------- whole archives ----------

  /** q is a nonempty prefix of the components of one of the paths. */
  ghost predicate Mentioned(paths: seq<string>, q: seq<string>) {
    exists k :: 0 <= k < |paths| && Node.Leads([], Components(paths[k]), q)
  }

  /** A path string in its own buffer, as insert wants it. */
  method Buffer(path: string) returns (b: array<char>)
    requires NUL !in path
    ensures fresh(b) && Terminated(b[..], 0) && CString(b[..], 0) == path
  {
    b := new char[|path| + 1](i requires 0 <= i <= |path| => if i < |path| then path[i] else NUL);
    assert b[..][0..0 + |path|] == path;
    CStringIs(b[..], 0, path);
  }

  /** Inserting all paths of an archive into an empty tree. */
  method InsertAll(rootName: string, paths: seq<string>)
    returns (root: Node, inserted: seq<Node>, ghost nodes: set<Node>)
    requires '/' !in rootName && forall k :: 0 <= k < |paths| ==> NUL !in paths[k]
    ensures TreeOk(root, nodes) && root in nodes && root.names == []
    ensures InsertedAre(inserted, nodes, paths) && ReachesExactly(nodes, paths)
  {
    root, nodes := NewRoot(rootName);
    inserted := [];
    hide TreeOk, InsertedAre, ReachesExactly;
    assert paths[..0] == [];
    NothingYet(nodes);
    for k := 0 to |paths|
      invariant TreeOk(root, nodes) && root in nodes && root.names == [] && fresh(nodes)
      invariant InsertedAre(inserted, nodes, paths[..k]) && ReachesExactly(nodes, paths[..k])
    {
      var node;
      node, nodes := InsertNext(root, paths, k, inserted, nodes);
      inserted := inserted + [node];
    }
    assert paths[..|paths|] == paths;
  }

  ghost predicate InsertedAre(inserted: seq<Node>, nodes: set<Node>, paths: seq<string>)
    reads inserted
  {
    && |inserted| == |paths|
    && forall j :: 0 <= j < |paths| ==> inserted[j] in nodes && inserted[j].names == Components(paths[j])
  }

  /** The tree's nodes are the root and what the paths mention. */
  ghost predicate ReachesExactly(nodes: set<Node>, paths: seq<string>)
    reads nodes
  {
    forall q :: Reached(q, nodes) <==> q == [] || Mentioned(paths, q)
  }

  lemma NothingYet(nodes: set<Node>)
    requires forall q :: Reached(q, nodes) <==> q == []
    ensures ReachesExactly(nodes, []) && InsertedAre([], nodes, [])
  {
  }

  method InsertNext(root: Node, paths: seq<string>, k: nat, ghost inserted: seq<Node>, ghost nodes: set<Node>)
    returns (node: Node, ghost nodes': set<Node>)
    requires TreeOk(root, nodes) && root in nodes && root.names == [] && k < |paths| && NUL !in paths[k]
    requires InsertedAre(inserted, nodes, paths[..k]) && ReachesExactly(nodes, paths[..k])
    modifies nodes
    ensures TreeOk(root, nodes') && nodes <= nodes' && fresh(nodes' - nodes) && root.names == []
    ensures InsertedAre(inserted + [node], nodes', paths[..k + 1]) && ReachesExactly(nodes', paths[..k + 1])
  {
    hide TreeOk, Reached, Mentioned, Node.Leads;
    MentionedNext(paths, k);
    node, nodes' := InsertPath(root, paths[k], nodes);
    assert paths[..k + 1] == paths[..k] + [paths[k]];
  }

  method InsertPath(root: Node, path: string, ghost nodes: set<Node>) returns (node: Node, ghost nodes': set<Node>)
    requires TreeOk(root, nodes) && root in nodes && root.names == [] && NUL !in path
    modifies nodes
    ensures TreeOk(root, nodes') && nodes <= nodes' && fresh(nodes' - nodes)
    ensures node in nodes' && node.names == Components(path)
    ensures forall q :: Reached(q, nodes') <==> old(Reached(q, nodes)) || Node.Leads([], Components(path), q)
    ensures forall n :: n in nodes ==> n.names == old(n.names)
  {
    hide TreeOk, Reached, Node.Leads;
    var b := Buffer(path);
    node, nodes' := root.Insert(b, 0, root, nodes);
    assert [] + Components(path) == Components(path);
  }

  method NewRoot(rootName: string) returns (root: Node, ghost nodes: set<Node>)
    requires '/' !in rootName
    ensures TreeOk(root, nodes) && root in nodes && fresh(nodes) && root.sname == rootName && root.names == []
    ensures forall q :: Reached(q, nodes) <==> q == []
  {
    root := new Node(null, rootName, []);
    nodes := {root};
    assert NodeOk(root, root, nodes);
  }

  lemma MentionedNext(paths: seq<string>, k: nat)
    requires k < |paths|
    ensures forall q :: Mentioned(paths[..k + 1], q) <==>
      Mentioned(paths[..k], q) || Node.Leads([], Components(paths[k]), q)
  {
    forall q
      ensures Mentioned(paths[..k + 1], q) <==>
        Mentioned(paths[..k], q) || Node.Leads([], Components(paths[k]), q)
    {
      if Mentioned(paths[..k], q) {
        var j :| 0 <= j < k && Node.Leads([], Components(paths[..k][j]), q);
        assert paths[..k + 1][j] == paths[..k][j];
      } else if Node.Leads([], Components(paths[k]), q) {
        assert paths[..k + 1][k] == paths[k];
      }
      if Mentioned(paths[..k + 1], q) {
        var j :| 0 <= j < k + 1 && Node.Leads([], Components(paths[..k + 1][j]), q);
        assert j < k ==> paths[..k][j] == paths[..k + 1][j];
      }
    }
  }

  // ---------- finding what was inserted ----------

  /** find returns the node that insert returned exactly when the path does not end in a slash
      (and is not empty), and all its components but the last fit the buffer. */
  method FindInserted(root: Node, paths: seq<string>, inserted: seq<Node>, k: nat, ghost nodes: set<Node>)
    returns (found: Node?, overrun: bool)
    requires TreeOk(root, nodes) && root.names == [] && InsertedAre(inserted, nodes, paths) && k < |paths|
    ensures overrun <==> !FitsBuffer(paths[k])
    ensures found == inserted[k] <==> !overrun && Last(Components(paths[k])) != ""
    ensures found != null ==> found.names == FindNames(paths[k])
    ensures found == null ==> overrun
  {
    found, overrun := FindPath(root, paths[k], nodes);
    OverrunOfInserted(paths[k], inserted[k], root, nodes);
    FoundNode(found, overrun, paths[k], inserted[k], root, nodes);
  }

  /** find from the root. */
  method FindPath(root: Node, path: string, ghost nodes: set<Node>) returns (found: Node?, overrun: bool)
    requires TreeOk(root, nodes) && root.names == []
    ensures overrun <==> Overruns([], path, nodes)
    ensures found != null ==> !overrun && found in nodes && found.names == FindNames(path)
    ensures found == null ==> overrun || !Reached(FindNames(path), nodes)
  {
    hide TreeOk, Reached, Overruns, FindNames;
    assert root in nodes by { RootIn(root, nodes); }
    found, overrun := root.Find(path, root, nodes);
    assert [] + FindNames(path) == FindNames(path);
  }

  lemma RootIn(root: Node, nodes: set<Node>)
    requires TreeOk(root, nodes)
    ensures root in nodes
  {
  }

  lemma OverrunOfInserted(path: string, n: Node, root: Node, nodes: set<Node>)
    requires TreeOk(root, nodes) && n in nodes && n.names == Components(path)
    ensures Overruns([], path, nodes) <==> !FitsBuffer(path)
  {
    assert [] + Components(path) == Components(path);
    OverrunOfNode([], path, n, root, nodes);
  }

  lemma FoundNode(found: Node?, overrun: bool, path: string, n: Node, root: Node, nodes: set<Node>)
    requires TreeOk(root, nodes) && n in nodes && n.names == Components(path)
    requires found != null ==> !overrun && found in nodes && found.names == FindNames(path)
    requires found == null ==> overrun || !Reached(FindNames(path), nodes)
    ensures found == n <==> !overrun && Last(Components(path)) != ""
    ensures found == null ==> overrun
  {
    FindNamesExact(path);
    hide TreeOk, Components, FindNames;
    if found != null && Last(Components(path)) != "" {
      NamesInjective(found, n, root, nodes);
    }
    if found == null && !overrun {
      var a := Ancestor(n, |FindNames(path)|, root, nodes);
    }
  }

  /** find fails exactly for the paths that are no component prefix of an inserted one, and ends early
      exactly for those that overrun the buffer. */
  method FindAny(root: Node, paths: seq<string>, path: string, ghost nodes: set<Node>)
    returns (found: Node?, overrun: bool)
    requires TreeOk(root, nodes) && root.names == [] && ReachesExactly(nodes, paths)
    ensures overrun <==> Overruns([], path, nodes)
    ensures found == null <==> overrun || (FindNames(path) != [] && !Mentioned(paths, FindNames(path)))
    ensures found == root <==> path == ""
  {
    found, overrun := FindPath(root, path, nodes);
    if found != null {
      assert Reached(found.names, nodes);
      if FindNames(path) == [] {
        NamesInjective(found, root, root, nodes);
      }
    }
  }

  /** Different paths have different nodes. */
  lemma DifferentNodes(paths: seq<string>, inserted: seq<Node>, nodes: set<Node>, i: nat, j: nat)
    requires InsertedAre(inserted, nodes, paths) && i < |paths| && j < |paths| && paths[i] != paths[j]
    ensures inserted[i] != inserted[j]
  {
    if inserted[i] == inserted[j] {
      ComponentsInjective(paths[i], paths[j]);
    }
  }

  /** Every node but the root is found again by its full name exactly when its own name is not empty
      and the names above it fit the buffer. */
  method FindFullname(n: Node, root: Node, ghost nodes: set<Node>) returns (name: string, found: Node?, overrun: bool)
    requires TreeOk(root, nodes) && root.names == [] && n in nodes && n != root
    ensures name == Join(n.names) && Components(name) == n.names
    ensures overrun <==> !AllFit(n.names)
    ensures found == n <==> !overrun && n.sname != ""
  {
    hide Components, FindNames, HasSlash, Overruns, FitsBuffer;
    name := n.Fullname(root, nodes);
    NamesSlashFree(n, root, nodes);
    ComponentsOfJoin(n.names);
    FitsBufferExact(name);
    OverrunOfInserted(name, n, root, nodes);
    found, overrun := FindPath(root, name, nodes);
    FoundNode(found, overrun, name, n, root, nodes);
    NameIsLast(n, root, nodes);
  }

  lemma NameIsLast(n: Node, root: Node, nodes: set<Node>)
    requires TreeOk(root, nodes) && n in nodes && n != root
    ensures n.names != [] && Last(n.names) == n.sname
  {
    assert NodeOk(n, root, nodes);
  }

  lemma {:induction false} NamesSlashFree(n: Node, root: Node, nodes: set<Node>)
    requires TreeOk(root, nodes) && n in nodes
    ensures forall k :: 0 <= k < |n.names| ==> '/' !in n.names[k]
    ensures n != root ==> n.names != []
    decreases |n.names|
  {
    assert NodeOk(n, root, nodes);
    if n == root {
    } else {
      NamesSlashFree(n.parent, root, nodes);
    }
  }

  // ---------- paths that find does not find ----------

  /** The path "a/" makes insert create a nameless node below "a"; find returns "a". */
  method TrailingSlash() returns (inserted: seq<Node>, found: Node?, again: Node?)
    ensures |inserted| == 1 && inserted[0].names == ["a", ""]
    ensures found != null && found.names == ["a"] && found != inserted[0]
    ensures again != inserted[0]
  {
    hide TreeOk, InsertedAre, ReachesExactly, FindNames, FitsBuffer;
    SlashBehindA();
    var root, overrun, name;
    ghost var nodes;
    root, inserted, nodes := InsertAll("", ["a/"]);
    OneInserted(inserted, nodes, "a/");
    found, overrun := FindInserted(root, ["a/"], inserted, 0, nodes);
    NameIsLast(inserted[0], root, nodes);
    name, again, overrun := FindFullname(inserted[0], root, nodes);
  }

  lemma SlashBehindA()
    ensures Components("a/") == ["a", ""] && FindNames("a/") == ["a"] && FitsBuffer("a/")
  {
    SlashAfter("a", "");
    assert "a" + "/" + "" == "a/";
    assert Components("") == [""] && FindNames("") == [];
  }

  lemma OneInserted(inserted: seq<Node>, nodes: set<Node>, path: string)
    requires InsertedAre(inserted, nodes, [path])
    ensures |inserted| == 1 && inserted[0] in nodes && inserted[0].names == Components(path)
  {
  }

  /** A component of 255 characters overruns the buffer, but not behind one that is missing. */
  lemma LongName(name: string, nodes: set<Node>)
    requires |name| == 255 && '/' !in name
    ensures Overruns([], name + "/", nodes)
    ensures !FitsBuffer("b/" + name + "/")
    ensures !Reached(["b"], nodes) ==> !Overruns([], "b/" + name + "/", nodes)
  {
    SlashAfter(name, "");
    SlashAfter("b", name + "/");
    assert name + "/" + "" == name + "/";
    assert "b" + "/" + (name + "/") == "b/" + name + "/";
    assert [] + ["b"] == ["b"];
  }
}
