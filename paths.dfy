/** `java.nio.file.Path` as the file services use it: names parsed and
    resolved against a storage directory on a Unix file system. */
module Paths {
  import opened JavaStrings

  /** A path name that starts at the file-system root. */
  predicate IsAbsolute(name: string)
  {
    StartsWith(name, "/")
  }

  /** No `/` directly follows another. */
  predicate NoDoubledSlash(s: string)
  {
    forall i :: 0 < i < |s| ==> !(s[i - 1] == '/' && s[i] == '/')
  }

  /** The form in which a `Path` holds a parsed name: no doubled `/`, and no
      trailing `/` unless the name is the root `/` itself. */
  predicate IsPathString(s: string)
  {
    NoDoubledSlash(s) && (|s| > 1 ==> s[|s| - 1] != '/')
  }

  /** The characters of `s` other than `/`, in order. */
  function NonSlash(s: string): string
  {
    if s == [] then []
    else (if s[0] == '/' then [] else [s[0]]) + NonSlash(s[1..])
  }

  /** Every run of `/` cut to a single `/`. */
  function CollapseSlashes(s: string): (r: string)
    ensures NoDoubledSlash(r)
    ensures s == [] <==> r == []
    ensures s != [] ==> r[0] == s[0] && r[|r| - 1] == s[|s| - 1]
  {
    if |s| <= 1 then s
    else if s[0] == '/' && s[1] == '/' then CollapseSlashes(s[1..])
    else
      var rest := CollapseSlashes(s[1..]);
      var r := [s[0]] + rest;
      assert NoDoubledSlash(r) by {
        forall i | 0 < i < |r| ensures !(r[i - 1] == '/' && r[i] == '/') {
          if i > 1 {
            assert r[i - 1] == rest[i - 2] && r[i] == rest[i - 1];
          }
        }
      }
      r
  }

  lemma NoDoubledSlashTail(s: string)
    requires s != [] && NoDoubledSlash(s)
    ensures NoDoubledSlash(s[1..])
  {
    forall i | 0 < i < |s[1..]| ensures !(s[1..][i - 1] == '/' && s[1..][i] == '/') {
      assert s[1..][i - 1] == s[i] && s[1..][i] == s[i + 1];
    }
  }

  /** Collapsing removes only slashes. */
  lemma {:induction false} CollapseKeepsNonSlash(s: string)
    ensures NonSlash(CollapseSlashes(s)) == NonSlash(s)
  {
    if |s| > 1 {
      CollapseKeepsNonSlash(s[1..]);
      if !(s[0] == '/' && s[1] == '/') {
        var r := CollapseSlashes(s);
        assert r[1..] == CollapseSlashes(s[1..]);
      }
    }
  }

  /** A name without doubled slashes is left as it is. */
  lemma {:induction false} CollapseKeepsSingleSlashes(s: string)
    requires NoDoubledSlash(s)
    ensures CollapseSlashes(s) == s
  {
    if |s| > 1 {
      NoDoubledSlashTail(s);
      CollapseKeepsSingleSlashes(s[1..]);
      assert s == [s[0]] + s[1..];
    }
  }

  /** Parsing a name into a `Path` (`UnixPath.normalizeAndCheck`): runs of
      `/` become one `/` and a trailing `/` is dropped, except from the root
      `/` itself. The first character is kept, so an absolute name stays
      absolute. */
  function PathString(s: string): (r: string)
    ensures s == [] <==> r == []
    ensures s != [] ==> r[0] == s[0]
  {
    var c := CollapseSlashes(s);
    if |c| > 1 && c[|c| - 1] == '/' then c[..|c| - 1] else c
  }

  /** A parsed name has no doubled `/` and no trailing `/` but the root's. */
  lemma PathStringIsParsed(s: string)
    ensures IsPathString(PathString(s))
  {
    var c := CollapseSlashes(s);
    if |c| > 1 && c[|c| - 1] == '/' {
      var r := c[..|c| - 1];
      forall i | 0 < i < |r| ensures !(r[i - 1] == '/' && r[i] == '/') {
        assert r[i - 1] == c[i - 1] && r[i] == c[i];
      }
    }
  }

  /** Parsing removes only slashes. */
  lemma PathStringKeepsNonSlash(s: string)
    ensures NonSlash(PathString(s)) == NonSlash(s)
  {
    var c := CollapseSlashes(s);
    CollapseKeepsNonSlash(s);
    if |c| > 1 && c[|c| - 1] == '/' {
      var r := c[..|c| - 1];
      assert c == r + "/";
      NonSlashAppend(r, "/");
      assert NonSlash("/") == [];
      assert NonSlash(c) == NonSlash(r);
    }
  }

  /** A name already in parsed form is kept as it is. */
  lemma PathStringKeepsParsed(s: string)
    ensures IsPathString(s) ==> PathString(s) == s
  {
    if IsPathString(s) {
      CollapseKeepsSingleSlashes(s);
    }
  }

  /** Parsing twice is parsing once. */
  lemma PathStringIdempotent(s: string)
    ensures PathString(PathString(s)) == PathString(s)
  {
    PathStringIsParsed(s);
    PathStringKeepsParsed(PathString(s));
  }

  lemma {:induction false} NonSlashAppend(a: string, b: string)
    ensures NonSlash(a + b) == NonSlash(a) + NonSlash(b)
  {
    if a == [] {
      assert a + b == b;
    } else {
      assert (a + b)[1..] == a[1..] + b;
      NonSlashAppend(a[1..], b);
    }
  }

  /** Two names in parsed form, joined by a `/` that neither touches, are in
      parsed form again. */
  lemma JoinIsPathString(base: string, child: string)
    requires IsPathString(base) && IsPathString(child)
    requires base == [] || base[|base| - 1] != '/'
    requires child != [] && child[0] != '/'
    ensures IsPathString(base + "/" + child)
  {
    var r := base + "/" + child;
    forall i | 0 < i < |r| ensures !(r[i - 1] == '/' && r[i] == '/') {
      if i < |base| {
        assert r[i - 1] == base[i - 1] && r[i] == base[i];
      } else if i == |base| {
        assert r[i - 1] == base[|base| - 1];
      } else if i == |base| + 1 {
        assert r[i] == child[0];
      } else {
        assert r[i - 1] == child[i - |base| - 2] && r[i] == child[i - |base| - 1];
      }
    }
    assert r[|r| - 1] == child[|child| - 1];
  }

  /** `root.resolve(name)` (`UnixPath.resolve`) on the parsed root and name,
      without `normalize`: an empty name gives the root; an absolute name, or
      any name against an empty root, gives the name; otherwise the name
      follows the root after one `/`. */
  function Resolve(root: string, name: string): (r: string)
    ensures IsAbsolute(name) ==> r == PathString(name)
    ensures !IsAbsolute(name) ==> StartsWith(r, PathString(root))
  {
    var base := PathString(root);
    var child := PathString(name);
    if child == [] then base
    else if base == [] || child[0] == '/' then child
    else if base == "/" then "/" + child
    else base + "/" + child
  }

  /** A resolved path is in parsed form again. */
  lemma ResolveIsPathString(root: string, name: string)
    ensures IsPathString(Resolve(root, name))
  {
    var base := PathString(root);
    var child := PathString(name);
    PathStringIsParsed(root);
    PathStringIsParsed(name);
    if child != [] && base != [] && child[0] != '/' {
      if base == "/" {
        JoinIsPathString([], child);
        assert [] + "/" + child == "/" + child;
      } else {
        JoinIsPathString(base, child);
      }
    }
  }

  /** Whatever the name, its resolved path ends with the name in parsed
      form. */
  lemma ResolveEndsWithName(root: string, name: string)
    ensures EndsWith(Resolve(root, name), PathString(name))
  {
    var r := Resolve(root, name);
    var child := PathString(name);
    if child != [] && !IsAbsolute(name) {
      assert r[|r| - |child|..] == child;
    }
  }

  /** Under one root, two relative names resolve to the same path exactly
      when they parse to the same name, so files stored under different
      names in parsed form never overwrite each other. */
  lemma ResolveInjective(root: string, a: string, b: string)
    requires !IsAbsolute(a) && !IsAbsolute(b)
    ensures Resolve(root, a) == Resolve(root, b) <==> PathString(a) == PathString(b)
  {
    var base, ca, cb := PathString(root), PathString(a), PathString(b);
    if Resolve(root, a) == Resolve(root, b) {
      var r := Resolve(root, a);
      if ca != [] && cb != [] && base != [] {
        if base == "/" {
          assert ca == r[1..] == cb;
        } else {
          assert ca == r[|base| + 1..] == cb;
        }
      }
    }
  }

  lemma SameParsedNameSamePath(root: string, a: string, b: string)
    requires PathString(a) == PathString(b)
    ensures Resolve(root, a) == Resolve(root, b)
  {
  }

  lemma {:induction false} CollapseAppendSlash(s: string)
    requires s != []
    ensures CollapseSlashes(s + "/")
      == if s[|s| - 1] == '/' then CollapseSlashes(s) else CollapseSlashes(s) + "/"
  {
    var t := s + "/";
    if |s| == 1 {
      assert t[1..] == "/";
      if s[0] == '/' {
        assert CollapseSlashes(t) == CollapseSlashes("/") == "/";
      } else {
        assert CollapseSlashes(t) == [s[0]] + CollapseSlashes("/");
      }
    } else {
      var tail := s[1..];
      assert t[0] == s[0] && t[1] == s[1] && t[1..] == tail + "/";
      assert tail[|tail| - 1] == s[|s| - 1];
      CollapseAppendSlash(tail);
      if s[0] == '/' && s[1] == '/' {
        assert CollapseSlashes(t) == CollapseSlashes(tail + "/");
        assert CollapseSlashes(s) == CollapseSlashes(tail);
      } else {
        assert CollapseSlashes(t) == [s[0]] + CollapseSlashes(tail + "/");
        assert CollapseSlashes(s) == [s[0]] + CollapseSlashes(tail);
      }
    }
  }

  lemma {:induction false} CollapseDoubledSlash(a: string, b: string)
    ensures CollapseSlashes(a + "//" + b) == CollapseSlashes(a + "/" + b)
  {
    var s1, s2 := a + "//" + b, a + "/" + b;
    if a == [] {
      assert s1 == "//" + b && s1[1..] == s2;
    } else {
      assert s1[0] == s2[0] == a[0] && s1[1] == s2[1];
      assert s1[1..] == a[1..] + "//" + b && s2[1..] == a[1..] + "/" + b;
      CollapseDoubledSlash(a[1..], b);
    }
  }

  /** A trailing `/` does not change where a name resolves: `a/` resolves
      where `a` does. */
  lemma TrailingSlashIgnored(root: string, name: string)
    requires name != []
    ensures Resolve(root, name + "/") == Resolve(root, name)
  {
    CollapseAppendSlash(name);
    assert PathString(name + "/") == PathString(name);
    SameParsedNameSamePath(root, name + "/", name);
  }

  /** A doubled `/` does not change where a name resolves: `a//b` resolves
      where `a/b` does, and `//x` where the absolute `/x` does. */
  lemma DoubledSlashIgnored(root: string, a: string, b: string)
    ensures Resolve(root, a + "//" + b) == Resolve(root, a + "/" + b)
  {
    CollapseDoubledSlash(a, b);
    SameParsedNameSamePath(root, a + "//" + b, a + "/" + b);
  }
}
