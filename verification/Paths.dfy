/** filepath.Join and filepath.Clean for absolute paths. */
module Paths {
  import opened Text

  predicate IsAbs(path: string) { path != "" && path[0] == '/' }

  /** The components that remain once empty ones and dots are dropped and each ".." has taken its parent along. */
  function Resolve(parts: seq<string>): seq<string> {
    if parts == [] then
      []
    else
      var front, last := Resolve(parts[..|parts| - 1]), parts[|parts| - 1];
      if last == "" || last == "." then front
      else if last != ".." then front + [last]
      else if front == [] then front
      else front[..|front| - 1]
  }

  /** An empty component and a dot vanish, two dots take their parent along, and any other component stays. */
  lemma ResolveInFull(parts: seq<string>, name: string)
    ensures Resolve(parts + [""]) == Resolve(parts + ["."]) == Resolve(parts)
    ensures name != "" && name != "." && name != ".." ==>
      Resolve(parts + [name]) == Resolve(parts) + [name] && Resolve(parts + [name, ".."]) == Resolve(parts)
    ensures Resolve([".."]) == []
  {
    assert (parts + [""])[..|parts|] == (parts + ["."])[..|parts|] == (parts + [name])[..|parts|] == parts;
    assert (parts + [name, ".."])[..|parts| + 1] == parts + [name];
  }

  /** filepath.Clean of an absolute path */
  function Clean(path: string): string
    requires IsAbs(path)
  {
    var parts := Resolve(Split(path, '/'));
    if parts == [] then "/" else "/" + Join(parts, '/')
  }

  /** filepath.Join when its first element is absolute */
  function PathJoin(elems: seq<string>): string
    requires elems != [] && IsAbs(elems[0])
  {
    JoinFront(elems);
    Clean(Join(elems, '/'))
  }

  lemma JoinFront(elems: seq<string>)
    requires elems != []
    ensures elems[0] <= Join(elems, '/')
  {}

  /** A name of one directory entry. */
  predicate IsComponent(s: string) { s != "" && s != "." && s != ".." && Without(s, '/') }

  predicate AllComponents(parts: seq<string>) { forall k | 0 <= k < |parts| :: IsComponent(parts[k]) }

  /** The path with these components. */
  function Rooted(parts: seq<string>): string
    requires parts != []
  {
    "/" + Join(parts, '/')
  }

  lemma {:induction false} ComponentsStay(parts: seq<string>)
    requires AllComponents(parts)
    ensures Resolve([""] + parts) == parts
  {
    if parts == [] {
      assert [""][..0] == [];
    } else {
      var n := |parts| - 1;
      assert ([""] + parts)[..n + 1] == [""] + parts[..n];
      ComponentsStay(parts[..n]);
      assert IsComponent(parts[n]);
    }
  }

  lemma {:induction false} JoinJoin(xs: seq<string>, ys: seq<string>, c: char)
    requires xs != [] && ys != []
    ensures Join(xs + ys, c) == Join(xs, c) + [c] + Join(ys, c)
  {
    if |xs| == 1 {
      assert (xs + ys)[1..] == ys;
    } else {
      assert (xs + ys)[1..] == xs[1..] + ys;
      JoinJoin(xs[1..], ys, c);
    }
  }

  lemma RootedJoin(dir: seq<string>, names: seq<string>)
    requires dir != [] && names != []
    ensures Join([Rooted(dir)] + names, '/') == Rooted(dir + names)
  {
    JoinJoin(dir, names, '/');
    JoinJoin([Rooted(dir)], names, '/');
    assert Join([Rooted(dir)], '/') == Rooted(dir);
    hide Join;
    var a, b := Join(dir, '/'), Join(names, '/');
    assert ("/" + a) + ['/'] + b == "/" + (a + ['/'] + b);
  }

  lemma SplitRooted(parts: seq<string>)
    requires parts != [] && AllComponents(parts)
    ensures Split(Rooted(parts), '/') == [""] + parts
  {
    assert forall k | 0 <= k < |parts| :: IsComponent(parts[k]);
    SplitJoin(parts, '/');
    SplitAt("", '/', Join(parts, '/'));
    hide Split, Join;
    assert Rooted(parts) == "" + ['/'] + Join(parts, '/');
  }

  /** Joining components onto a directory appends exactly these components, so reading the path back finds them. */
  lemma PathJoinAppends(dir: seq<string>, names: seq<string>)
    requires dir != [] && AllComponents(dir) && names != [] && AllComponents(names)
    ensures PathJoin([Rooted(dir)] + names) == Rooted(dir + names)
    ensures Split(Rooted(dir + names), '/') == [""] + dir + names
  {
    hide Split, Join, Resolve, IsComponent;
    var parts := dir + names;
    RootedJoin(dir, names);
    SplitRooted(parts);
    ComponentsStay(parts);
    assert [""] + parts == [""] + dir + names;
  }
}
