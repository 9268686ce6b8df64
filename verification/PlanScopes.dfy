/** Write scopes of a task plan: slash-separated paths, and when two of them can touch the
    same file. */
module PlanScopes {
  import opened Spaces

  /** One more character in front of a path that is already cut. */
  function AddChar(c: char, parts: seq<string>): (r: seq<string>)
    requires parts != []
    ensures r != []
    ensures (forall p :: p in parts ==> '/' !in p) ==> forall p :: p in r ==> '/' !in p
  {
    if c == '/' then [""] + parts else [[c] + parts[0]] + parts[1..]
  }

  /** The components of a path, cut at every slash. */
  function Components(path: string): (parts: seq<string>)
    ensures parts != []
    ensures forall p :: p in parts ==> '/' !in p
  {
    if path == "" then [""] else AddChar(path[0], Components(path[1..]))
  }

  function Join(parts: seq<string>): string
    requires parts != []
  {
    if |parts| == 1 then parts[0] else parts[0] + "/" + Join(parts[1..])
  }

  lemma {:induction false} JoinAddChar(c: char, parts: seq<string>)
    requires parts != []
    ensures Join(AddChar(c, parts)) == [c] + Join(parts)
  {
    if c == '/' {
      assert ([""] + parts)[1..] == parts;
    } else {
      assert AddChar(c, parts)[1..] == parts[1..];
      if |parts| > 1 {
        assert ([c] + parts[0]) + "/" + Join(parts[1..]) == [c] + (parts[0] + "/" + Join(parts[1..]));
      }
    }
  }

  lemma {:induction false} JoinComponents(path: string)
    ensures Join(Components(path)) == path
  {
    if path != "" {
      JoinComponents(path[1..]);
      JoinAddChar(path[0], Components(path[1..]));
      assert path == [path[0]] + path[1..];
    }
  }

  lemma {:induction false} JoinAppend(left: seq<string>, right: seq<string>)
    requires left != [] && right != []
    ensures Join(left + right) == Join(left) + "/" + Join(right)
  {
    if |left| == 1 {
      assert (left + right)[1..] == right;
    } else {
      JoinAppend(left[1..], right);
      assert (left + right)[1..] == left[1..] + right;
      assert left[0] + "/" + (Join(left[1..]) + "/" + Join(right))
          == (left[0] + "/" + Join(left[1..])) + "/" + Join(right);
    }
  }

  lemma AddCharAppend(c: char, parts: seq<string>, more: seq<string>)
    requires parts != []
    ensures AddChar(c, parts + more) == AddChar(c, parts) + more
  {
    assert (parts + more)[0] == parts[0] && (parts + more)[1..] == parts[1..] + more;
  }

  lemma {:induction false} ComponentsAppend(path: string, below: string)
    ensures Components(path + "/" + below) == Components(path) + Components(below)
  {
    var whole := path + "/" + below;
    if path == "" {
      assert whole[1..] == below;
    } else {
      ComponentsAppend(path[1..], below);
      assert whole[1..] == path[1..] + "/" + below;
      AddCharAppend(path[0], Components(path[1..]), Components(below));
    }
  }

  /** The string test of the planner is the component-prefix order on paths. */
  lemma {:induction false} PrefixIsComponentPrefix(outer: string, inner: string)
    ensures (inner == outer || outer + "/" <= inner) <==> Components(outer) <= Components(inner)
  {
    if outer + "/" <= inner {
      var below := inner[|outer + "/"|..];
      assert inner == outer + "/" + below;
      ComponentsAppend(outer, below);
    }
    if Components(outer) <= Components(inner) {
      JoinComponents(outer);
      JoinComponents(inner);
      var rest := Components(inner)[|Components(outer)|..];
      assert Components(inner) == Components(outer) + rest;
      if rest != [] {
        JoinAppend(Components(outer), rest);
      } else {
        assert Components(inner) == Components(outer);
      }
    }
  }

  predicate IsSlash(c: char) {
    c == '/'
  }

  /** Python's `strip("/")`. */
  function Strip(path: string): string {
    StripWith(path, IsSlash)
  }

  /** Only slashes at the ends go, and all of them. */
  lemma StripIs(path: string) returns (a: nat, b: nat)
    ensures a <= b <= |path| && Strip(path) == path[a..b]
    ensures forall k :: 0 <= k < a || b <= k < |path| ==> path[k] == '/'
    ensures a < b ==> path[a] != '/' && path[b - 1] != '/'
  {
    a, b := StripBetween(path, IsSlash, 0, |path|);
    assert path[0..|path|] == path;
  }

  /** One of the two paths contains the other; the empty path contains nothing. */
  ghost predicate Related(first: string, second: string) {
    var left, right := Strip(first), Strip(second);
    && left != "" && right != ""
    && (Components(left) <= Components(right) || Components(right) <= Components(left))
  }

  ghost predicate Overlap(left: seq<string>, right: seq<string>) {
    exists i, j :: 0 <= i < |left| && 0 <= j < |right| && Related(left[i], right[j])
  }

  method WriteScopesOverlap(left: seq<string>, right: seq<string>) returns (overlap: bool)
    ensures overlap <==> Overlap(left, right)
  {
    for i := 0 to |left|
      invariant forall k, j :: 0 <= k < i && 0 <= j < |right| ==> !Related(left[k], right[j])
    {
      var first := Strip(left[i]);
      for j := 0 to |right|
        invariant forall k :: 0 <= k < j ==> !Related(left[i], right[k])
      {
        var second := Strip(right[j]);
        PrefixIsComponentPrefix(first, second);
        PrefixIsComponentPrefix(second, first);
        if first != "" && second != "" && (first == second || second + "/" <= first || first + "/" <= second) {
          return true;
        }
      }
    }
    return false;
  }
}
