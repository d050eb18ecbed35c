/** The few Python string and path built-ins the catalog scanner relies on:
    `str.split`/`str.rsplit` without a limit, `str.translate`/`str.replace` of
    one character, `str.endswith`, `os.path.basename`, `os.path.join` (POSIX
    flavour) and the ordering of `str` values used by `sorted`. */
module Strings {

  /** `s.split(sep)` for a one-character separator. Without a maxsplit,
      `s.rsplit(sep)` returns the same list. */
  function Split(s: string, sep: char): (parts: seq<string>)
    ensures |parts| >= 1
    decreases |s|
  {
    if |s| == 0 then [""]
    else
      var rest := Split(s[1..], sep);
      if s[0] == sep then [""] + rest else [[s[0]] + rest[0]] + rest[1..]
  }

  /** `sep.join(parts)`: the inverse of Split. */
  function JoinWith(parts: seq<string>, sep: char): string
    requires |parts| >= 1
    decreases |parts|
  {
    if |parts| == 1 then parts[0] else parts[0] + [sep] + JoinWith(parts[1..], sep)
  }

  /** Joining the pieces back with the separator gives the original text,
      and no piece contains the separator. A partner of `Split` that pins
      it down as Python's `str.split`; the scan itself does not need it. */
  lemma {:induction false} SplitJoin(s: string, sep: char)
    ensures JoinWith(Split(s, sep), sep) == s
    ensures forall i :: 0 <= i < |Split(s, sep)| ==> sep !in Split(s, sep)[i]
    decreases |s|
  {
    if |s| > 0 {
      var rest := Split(s[1..], sep);
      SplitJoin(s[1..], sep);
      if s[0] == sep {
        assert Split(s, sep) == [""] + rest;
        assert ([""] + rest)[1..] == rest;
        assert JoinWith([""] + rest, sep) == "" + [sep] + JoinWith(rest, sep);
        assert s == [s[0]] + s[1..];
      } else {
        var parts := [[s[0]] + rest[0]] + rest[1..];
        assert Split(s, sep) == parts;
        if |rest| == 1 {
          assert parts == [[s[0]] + rest[0]];
          assert s == [s[0]] + s[1..];
        } else {
          assert parts[1..] == rest[1..];
          assert JoinWith(rest, sep) == rest[0] + [sep] + JoinWith(rest[1..], sep);
          assert JoinWith(parts, sep) == [s[0]] + rest[0] + [sep] + JoinWith(rest[1..], sep);
          assert s == [s[0]] + s[1..];
        }
        forall i | 0 <= i < |parts| ensures sep !in parts[i] {
          if i == 0 {
            assert sep !in rest[0];
          } else {
            assert parts[i] == rest[i];
          }
        }
      }
    }
  }

  /** There is a second piece exactly when the separator occurs. */
  lemma {:induction false} SplitHasSecond(s: string, sep: char)
    ensures |Split(s, sep)| >= 2 <==> sep in s
    decreases |s|
  {
    if |s| > 0 {
      SplitHasSecond(s[1..], sep);
      assert s == [s[0]] + s[1..];
      assert sep in s <==> s[0] == sep || sep in s[1..];
    }
  }

  /** Text without the separator splits into itself alone. */
  lemma {:induction false} SplitWithout(s: string, sep: char)
    requires sep !in s
    ensures Split(s, sep) == [s]
    decreases |s|
  {
    if |s| > 0 {
      assert s[1..] == s[|s| - |s[1..]|..];
      assert forall c :: c in s[1..] ==> c in s;
      SplitWithout(s[1..], sep);
      assert s == [s[0]] + s[1..];
    }
  }

  /** Split of a text that starts with a given character. */
  lemma SplitCons(c: char, t: string, sep: char)
    ensures Split([c] + t, sep) ==
              if c == sep then [""] + Split(t, sep) else [[c] + Split(t, sep)[0]] + Split(t, sep)[1..]
  {
    assert ([c] + t)[0] == c && ([c] + t)[1..] == t;
  }

  /** The first piece runs up to the first separator; the rest is the
      split of what follows it. */
  lemma {:induction false} SplitAtFirst(a: string, b: string, sep: char)
    requires sep !in a
    ensures Split(a + [sep] + b, sep) == [a] + Split(b, sep)
    decreases |a|
  {
    if |a| == 0 {
      assert a + [sep] + b == [sep] + b;
      SplitCons(sep, b, sep);
    } else {
      var c, t := a[0], a[1..];
      assert a == [c] + t;
      assert sep !in t;
      assert a + [sep] + b == [c] + (t + [sep] + b);
      SplitAtFirst(t, b, sep);
      SplitCons(c, t + [sep] + b, sep);
    }
  }

  /** `s.translate({from: to})`: every `from` becomes `to`, all other
      characters stay where they are. */
  function Replace(s: string, from: char, to: char): (r: string)
    ensures |r| == |s|
    ensures forall i :: 0 <= i < |s| ==> r[i] == (if s[i] == from then to else s[i])
    decreases |s|
  {
    if |s| == 0 then "" else [if s[0] == from then to else s[0]] + Replace(s[1..], from, to)
  }

  /** After the replacement the replaced character is gone, and doing it
      again changes nothing. */
  lemma ReplaceRemoves(s: string, from: char, to: char)
    requires from != to
    ensures from !in Replace(s, from, to)
    ensures Replace(Replace(s, from, to), from, to) == Replace(s, from, to)
  {
    var r := Replace(s, from, to);
    forall i | 0 <= i < |r| ensures r[i] != from {
      assert r[i] == (if s[i] == from then to else s[i]);
    }
    var rr := Replace(r, from, to);
    assert forall i :: 0 <= i < |rr| ==> rr[i] == r[i];
  }

  /** Replacing leaves the text as it was exactly when the character is absent. */
  lemma ReplaceFixpoint(s: string, from: char, to: char)
    requires from != to
    ensures Replace(s, from, to) == s <==> from !in s
  {
    var r := Replace(s, from, to);
    if from in s {
      var i :| 0 <= i < |s| && s[i] == from;
      assert r[i] == to;
    } else {
      assert forall i :: 0 <= i < |s| ==> r[i] == s[i];
    }
  }

  /** `s.endswith(suffix)`. */
  predicate EndsWith(s: string, suffix: string)
  {
    |suffix| <= |s| && s[|s| - |suffix|..] == suffix
  }

  /** `s.rfind(c)`: the index of the last `c`, or -1. */
  function RFind(s: string, c: char): (i: int)
    ensures -1 <= i < |s|
    decreases |s|
  {
    if |s| == 0 then -1
    else if s[|s| - 1] == c then |s| - 1
    else RFind(s[..|s| - 1], c)
  }

  /** RFind finds an occurrence of `c` with none after it, and -1 only when
      there is none at all. */
  lemma {:induction false} RFindIsLast(s: string, c: char)
    ensures RFind(s, c) >= 0 ==> s[RFind(s, c)] == c
    ensures forall j :: RFind(s, c) < j < |s| ==> s[j] != c
    decreases |s|
  {
    if |s| > 0 && s[|s| - 1] != c {
      var init := s[..|s| - 1];
      RFindIsLast(init, c);
      assert forall j :: 0 <= j < |init| ==> init[j] == s[j];
    }
  }

  /** A character that does not occur after index `i` is not in the text
      that follows `i`. */
  lemma TailWithout(s: string, i: int, c: char)
    requires -1 <= i < |s|
    requires forall j :: i < j < |s| ==> s[j] != c
    ensures c !in s[i + 1..]
  {
    var t := s[i + 1..];
    forall j | 0 <= j < |t| ensures t[j] != c {
      assert t[j] == s[i + 1 + j];
    }
  }

  /** `os.path.basename(p)`: the text after the last `/`. It never holds a
      separator, it ends the path, and it is either the whole path or
      preceded by a separator. */
  function Basename(p: string): (name: string)
    ensures '/' !in name
  {
    RFindIsLast(p, '/');
    TailWithout(p, RFind(p, '/'), '/');
    p[RFind(p, '/') + 1..]
  }

  /** The basename ends the path, and is either the whole path or preceded
      by a separator: it is the last `/`-component. */
  lemma BasenameIsLastComponent(p: string)
    ensures EndsWith(p, Basename(p))
    ensures |Basename(p)| < |p| ==> p[|p| - |Basename(p)| - 1] == '/'
  {
    var i := RFind(p, '/');
    RFindIsLast(p, '/');
    var name := Basename(p);
    assert name == p[i + 1..];
    assert |p| - |name| == i + 1;
  }

  /** `os.path.join(dir, name)` with POSIX rules: an absolute name replaces
      the directory; otherwise a `/` is inserted unless the directory is
      empty or already ends with one. */
  function PathJoin(dir: string, name: string): string
  {
    if |name| > 0 && name[0] == '/' then name
    else if |dir| == 0 || dir[|dir| - 1] == '/' then dir + name
    else dir + "/" + name
  }

  /** The joined path ends with the name, and is either the name itself or
      has a separator just before it. */
  lemma PathJoinEndsWithName(dir: string, name: string)
    ensures EndsWith(PathJoin(dir, name), name)
    ensures var p := PathJoin(dir, name); p == name || (|p| > |name| && p[|p| - |name| - 1] == '/')
  {
    var p := PathJoin(dir, name);
    if !(|name| > 0 && name[0] == '/') && |dir| > 0 && dir[|dir| - 1] != '/' {
      assert p == (dir + "/") + name;
    }
    assert p[|p| - |name|..] == name;
  }

  /** `os.path.basename(os.path.join(dir, name))` gives back `name` for any
      file name (which never holds a separator). A partner of `PathJoin` and
      `Basename`: the name the scan reads back is the name it joined. */
  lemma BasenameOfJoin(dir: string, name: string)
    requires '/' !in name
    ensures Basename(PathJoin(dir, name)) == name
  {
    var p := PathJoin(dir, name);
    var k := |p| - |name|;
    assert p[k..] == name;
    assert k == 0 || p[k - 1] == '/';
    var i := RFind(p, '/');
    RFindIsLast(p, '/');
    forall j | k <= j < |p| ensures p[j] != '/' {
      assert p[j] == name[j - k];
    }
    assert i == k - 1;
  }

  /** Python's `<` on `str`: lexicographic by code point, a proper prefix
      coming first. */
  predicate LexLess(a: string, b: string)
    ensures LexLess(a, b) ==> a != b
    decreases |a|
  {
    |b| > 0 && (|a| == 0 || a[0] < b[0] || (a[0] == b[0] && LexLess(a[1..], b[1..])))
  }

  lemma {:induction false} LexLessTransitive(a: string, b: string, c: string)
    requires LexLess(a, b) && LexLess(b, c)
    ensures LexLess(a, c)
    decreases |a|
  {
    if |a| > 0 && a[0] == b[0] && b[0] == c[0] {
      LexLessTransitive(a[1..], b[1..], c[1..]);
    }
  }

  /** Any two different strings are ordered one way or the other. */
  lemma {:induction false} LexLessTotal(a: string, b: string)
    requires a != b
    ensures LexLess(a, b) || LexLess(b, a)
    decreases |a|
  {
    if |a| > 0 && |b| > 0 && a[0] == b[0] {
      assert a == [a[0]] + a[1..];
      assert b == [b[0]] + b[1..];
      LexLessTotal(a[1..], b[1..]);
    }
  }
}
