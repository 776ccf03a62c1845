/** `splitpath` of usr/lib/simbuto/python/simbuto/utils.py, over the POSIX
    `os.path.split`. The loop is proved to compute `Components`, the
    non-empty pieces of the path between '/' separators. */
module PathUtils {

  /** The index just past the last '/' of `p`, or 0 when there is none
      (`p.rfind('/') + 1`). */
  function LastSepEnd(p: string): (i: nat)
    ensures i <= |p|
    ensures i > 0 ==> p[i - 1] == '/'
    ensures forall j :: i <= j < |p| ==> p[j] != '/'
  {
    if p == [] then 0
    else if p[|p| - 1] == '/' then |p|
    else LastSepEnd(p[..|p| - 1])
  }

  predicate AllSlashes(s: string)
  {
    forall j :: 0 <= j < |s| ==> s[j] == '/'
  }

  /** `s.rstrip('/')` */
  function RStripSlashes(s: string): (r: string)
    ensures r <= s
    ensures r == [] || r[|r| - 1] != '/'
    ensures forall j :: |r| <= j < |s| ==> s[j] == '/'
  {
    if s != [] && s[|s| - 1] == '/' then RStripSlashes(s[..|s| - 1]) else s
  }

  /** Stripping the trailing slashes of a string that has another character
      leaves a string with another character. */
  lemma {:induction false} RStripKeepsOther(s: string)
    requires !AllSlashes(s)
    ensures !AllSlashes(RStripSlashes(s))
    decreases |s|
  {
    if s[|s| - 1] == '/' {
      assert !AllSlashes(s[..|s| - 1]);
      RStripKeepsOther(s[..|s| - 1]);
    }
  }

  /** POSIX `os.path.split(p)`: cut just after the last '/'; the head loses
      its trailing slashes unless it consists of slashes only. */
  function Split(p: string): (r: (string, string))
    ensures |r.0| + |r.1| <= |p|
    ensures r.0 == p[..|r.0|] && r.1 == p[|p| - |r.1|..]
    ensures forall j :: |r.0| <= j < |p| - |r.1| ==> p[j] == '/'
    ensures '/' !in r.1
    ensures |r.1| < |p| ==> p[|p| - |r.1| - 1] == '/'
    ensures AllSlashes(r.0) || r.0[|r.0| - 1] != '/'
    ensures AllSlashes(r.0) ==> |r.0| + |r.1| == |p|
  {
    var i := LastSepEnd(p);
    var head := p[..i];
    var tail := p[i..];
    if head != [] && !AllSlashes(head) then
      RStripKeepsOther(head);
      (RStripSlashes(head), tail)
    else
      (head, tail)
  }

  /** Splitting reaches a fixed point (the head is the path itself) exactly
      when the path is empty or made of slashes only; otherwise the head is
      strictly shorter. */
  lemma SplitFixedPoint(p: string)
    ensures Split(p).0 == p <==> AllSlashes(p)
    ensures Split(p).0 != p ==> |Split(p).0| < |p|
  {
  }

  /** The non-empty '/'-separated pieces of `p`, in order: the independent
      description of what `splitpath` returns. */
  function Components(p: string): (c: seq<string>)
    ensures forall k :: 0 <= k < |c| ==> c[k] != [] && '/' !in c[k]
    decreases |p|
  {
    var i := LastSepEnd(p);
    var last := if p[i..] == [] then [] else [p[i..]];
    if i == 0 then last else Components(p[..i - 1]) + last
  }

  lemma {:induction false} ComponentsOfSlashes(p: string)
    requires AllSlashes(p)
    ensures Components(p) == []
    decreases |p|
  {
    if p != [] {
      assert LastSepEnd(p) == |p|;
      ComponentsOfSlashes(p[..|p| - 1]);
    }
  }

  lemma {:induction false} ComponentsRStrip(s: string)
    ensures Components(RStripSlashes(s)) == Components(s)
    decreases |s|
  {
    if s != [] && s[|s| - 1] == '/' {
      assert LastSepEnd(s) == |s|;
      ComponentsRStrip(s[..|s| - 1]);
    }
  }

  /** A trailing '/' adds no component. */
  lemma {:induction false} ComponentsDropSep(h: string)
    requires h != [] && h[|h| - 1] == '/'
    ensures Components(h) == Components(h[..|h| - 1])
  {
    assert LastSepEnd(h) == |h|;
    assert h[|h|..] == [];
  }

  /** The head of a split, taken from a prefix ending in '/', has the
      components of that prefix without its last '/'. */
  lemma {:induction false} HeadComponents(head: string)
    requires head != [] && head[|head| - 1] == '/'
    ensures Components(if AllSlashes(head) then head else RStripSlashes(head))
            == Components(head[..|head| - 1])
  {
    ComponentsDropSep(head);
    if !AllSlashes(head) {
      ComponentsRStrip(head);
    }
  }

  /** The components of a path that is not made of slashes only: those of
      the head `Split` computes from it, then its tail, if any. Stated on the
      pieces `Split` is computed from, so that the proof does not carry
      `Split`'s own contract. */
  lemma {:induction false} StepComponents(p: string)
    requires !AllSlashes(p)
    ensures var i := LastSepEnd(p);
            var head := p[..i];
            var tail := p[i..];
            Components(p)
              == Components(if head != [] && !AllSlashes(head) then RStripSlashes(head) else head)
                 + (if tail == [] then [] else [tail])
  {
    var i := LastSepEnd(p);
    var head := p[..i];
    var last := if p[i..] == [] then [] else [p[i..]];
    if i == 0 {
      assert Components(p) == last;
      assert Components(head) == [] by {
        assert head == [];
      }
    } else {
      assert Components(p) == Components(p[..i - 1]) + last;
      assert Components(if AllSlashes(head) then head else RStripSlashes(head))
             == Components(p[..i - 1]) by {
        HeadComponents(head);
        assert head[..i - 1] == p[..i - 1];
      }
    }
  }

  /** One turn of the `splitpath` loop: when the path is not made of slashes
      only (so the head differs from it), the path's components are the
      head's followed by the tail, if any. */
  lemma {:induction false} SplitStep(p: string)
    requires !AllSlashes(p)
    ensures Components(p) == Components(Split(p).0) + (if Split(p).1 == [] then [] else [Split(p).1])
  {
    StepComponents(p);
  }

  /** `list.reverse()` */
  function Reverse<T>(s: seq<T>): (r: seq<T>)
    ensures |r| == |s|
    ensures forall i :: 0 <= i < |s| ==> r[i] == s[|s| - 1 - i]
  {
    if s == [] then [] else [s[|s| - 1]] + Reverse(s[..|s| - 1])
  }

  lemma ReverseReverse<T>(s: seq<T>)
    ensures Reverse(Reverse(s)) == s
  {
    assert forall i :: 0 <= i < |s| ==> Reverse(Reverse(s))[i] == s[i];
  }

  /** `splitpath(path)`: split repeatedly, keep the non-empty tails (leaf
      first), stop at the fixed point, reverse. */
  method SplitPath(path: string) returns (res: seq<string>)
    ensures res == Components(path)
    ensures forall k :: 0 <= k < |res| ==> res[k] != [] && '/' !in res[k]
  {
    res := [];
    var p := path;
    while true
      invariant Components(path) == Components(p) + Reverse(res)
      decreases |p|
    {
      var (base, subject) := Split(p);
      if p == base {
        break;
      }
      SplitFixedPoint(p);
      SplitStep(p);
      if subject != [] {
        assert (res + [subject])[..|res|] == res;
        assert Reverse(res + [subject]) == [subject] + Reverse(res);
        res := res + [subject];
      }
      p := base;
    }
    SplitFixedPoint(p);
    ComponentsOfSlashes(p);
    ReverseReverse(res);
    res := Reverse(res);
  }

  /** Leading slashes leave no trace: "/a/b" and "a/b" have the same
      components. */
  lemma {:induction false} ComponentsIgnoreLeadingSlash(p: string)
    ensures Components("/" + p) == Components(p)
    decreases |p|
  {
    var q := "/" + p;
    var i := LastSepEnd(p);
    var last := if p[i..] == [] then [] else [p[i..]];
    assert LastSepEnd(q) == i + 1 by {
      LastSepEndShift(p);
    }
    assert q[i + 1..] == p[i..];
    assert Components(q) == Components(q[..i]) + last;
    if i > 0 {
      assert q[..i] == "/" + p[..i - 1];
      ComponentsIgnoreLeadingSlash(p[..i - 1]);
    } else {
      assert q[..0] == [];
      assert Components([]) == [];
    }
  }

  lemma {:induction false} LastSepEndShift(p: string)
    ensures LastSepEnd("/" + p) == LastSepEnd(p) + 1
    decreases |p|
  {
    if p != [] && p[|p| - 1] != '/' {
      assert ("/" + p)[..|p|] == "/" + p[..|p| - 1];
      LastSepEndShift(p[..|p| - 1]);
    }
  }

  /** The cases the loop's stopping rule singles out, and one ordinary path. */
  lemma Examples()
    ensures Components("") == [] && Components("/") == []
    ensures Components("/a/b") == ["a", "b"] && Components("a/b") == ["a", "b"]
  {
    ComponentsIgnoreLeadingSlash("a/b");
    assert "/" + "a/b" == "/a/b";
    assert LastSepEnd("a/b") == 2;
    assert "a/b"[2..] == "b" && "a/b"[..1] == "a";
    assert LastSepEnd("a") == 0;
    assert "a"[0..] == "a";
    assert Components("a") == ["a"];
  }
}
