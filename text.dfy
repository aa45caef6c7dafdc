/** The string operations of Python that the archiver relies on: str.split with a one-character
    separator, str.strip, str.startswith / str.endswith and posixpath.join. */
module Text {

  /** The characters Python's str.isspace() accepts, which str.strip() removes. */
  predicate IsSpace(c: char) {
    || c == ' ' || c == '\t' || c == '\n' || c == '\r' || c == '\U{B}' || c == '\U{C}'
    || ('\U{1C}' <= c <= '\U{1F}') || c == '\U{85}' || c == '\U{A0}' || c == '\U{1680}'
    || ('\U{2000}' <= c <= '\U{200A}') || c == '\U{2028}' || c == '\U{2029}'
    || c == '\U{202F}' || c == '\U{205F}' || c == '\U{3000}'
  }

  predicate AllSpace(s: string) {
    forall i :: 0 <= i < |s| ==> IsSpace(s[i])
  }

  predicate StartsWith(s: string, prefix: string) {
    |prefix| <= |s| && s[..|prefix|] == prefix
  }

  predicate EndsWith(s: string, suffix: string) {
    |suffix| <= |s| && s[|s| - |suffix|..] == suffix
  }

  /** Number of occurrences of c in s. */
  function Count(s: string, c: char): nat {
    if s == [] then 0 else (if s[0] == c then 1 else 0) + Count(s[1..], c)
  }

  /** str.lstrip(): drop leading whitespace. */
  function StripLeft(s: string): (r: string)
    ensures |r| <= |s| && r == s[|s| - |r|..]
    ensures AllSpace(s[..|s| - |r|])
    ensures r == [] || !IsSpace(r[0])
  {
    if s != [] && IsSpace(s[0]) then StripLeft(s[1..]) else s
  }

  /** str.rstrip(): drop trailing whitespace. */
  function StripRight(s: string): (r: string)
    ensures |r| <= |s| && r == s[..|r|]
    ensures AllSpace(s[|r|..])
    ensures r == [] || !IsSpace(r[|r| - 1])
  {
    if s != [] && IsSpace(s[|s| - 1]) then StripRight(s[..|s| - 1]) else s
  }

  /** A blank string strips to nothing from the left. */
  lemma {:induction false} StripLeftBlank(s: string)
    requires AllSpace(s)
    ensures StripLeft(s) == []
  {
    if s != [] {
      StripLeftBlank(s[1..]);
    }
  }

  /** str.strip(): the result is empty exactly when s is blank, and otherwise starts and ends
      with a non-space character; StripCutsBothEnds shows it is s with the whitespace at both
      ends cut off. */
  function Strip(s: string): (r: string)
    ensures r == [] <==> AllSpace(s)
    ensures r != [] ==> !IsSpace(r[0]) && !IsSpace(r[|r| - 1])
  {
    var left := StripLeft(s);
    var r := StripRight(left);
    assert r == [] ==> AllSpace(s) by {
      if r == [] {
        assert left[|r|..] == left;
        assert s == s[..|s| - |left|] + left;
      }
    }
    assert AllSpace(s) ==> r == [] by {
      if AllSpace(s) {
        StripLeftBlank(s);
      }
    }
    r
  }

  /** Strip(s) is a slice of s with only whitespace before and after it. */
  lemma StripCutsBothEnds(s: string)
    ensures exists i :: 0 <= i <= |s| - |Strip(s)| && Strip(s) == s[i..i + |Strip(s)|]
                        && AllSpace(s[..i]) && AllSpace(s[i + |Strip(s)|..])
  {
    var i := |s| - |StripLeft(s)|;
    StripRightOfSuffix(s, i);
  }

  /** Stripping the right end of s[i..] leaves a slice of s followed by whitespace only. */
  lemma StripRightOfSuffix(s: string, i: nat)
    requires i <= |s|
    ensures var r := StripRight(s[i..]);
            i + |r| <= |s| && r == s[i..i + |r|] && AllSpace(s[i + |r|..])
  {
    var left := s[i..];
    var r := StripRight(left);
    assert left[..|r|] == s[i..i + |r|];
    assert left[|r|..] == s[i + |r|..];
  }

  /** A string without surrounding whitespace strips to itself. */
  lemma StripTrimmed(s: string)
    requires s == [] || (!IsSpace(s[0]) && !IsSpace(s[|s| - 1]))
    ensures Strip(s) == s
  {
  }

  /** str.split(sep) for a one-character separator: always at least one piece, one more than
      the number of separators, none of them containing the separator. */
  function Split(s: string, sep: char): (parts: seq<string>)
    ensures |parts| == Count(s, sep) + 1
    ensures forall i :: 0 <= i < |parts| ==> sep !in parts[i]
  {
    if s == [] then [[]]
    else
      var rest := Split(s[1..], sep);
      if s[0] == sep then [[]] + rest
      else [[s[0]] + rest[0]] + rest[1..]
  }

  /** sep.join(parts). */
  function Join(parts: seq<string>, sep: char): string {
    if parts == [] then []
    else if |parts| == 1 then parts[0]
    else parts[0] + [sep] + Join(parts[1..], sep)
  }

  function Last(parts: seq<string>): string
    requires parts != []
  {
    parts[|parts| - 1]
  }

  /** Joining the pieces of a split gives back the original string. */
  lemma {:induction false} JoinSplit(s: string, sep: char)
    ensures Join(Split(s, sep), sep) == s
  {
    if s != [] {
      var rest := Split(s[1..], sep);
      JoinSplit(s[1..], sep);
      if s[0] == sep {
        assert Split(s, sep) == [[]] + rest;
        assert Join([[]] + rest, sep) == [] + [sep] + Join(rest, sep);
      } else {
        var parts := Split(s, sep);
        assert parts == [[s[0]] + rest[0]] + rest[1..];
        if |rest| == 1 {
          assert parts == [[s[0]] + rest[0]];
        } else {
          assert parts[1..] == rest[1..];
          assert Join(rest, sep) == rest[0] + [sep] + Join(rest[1..], sep);
        }
      }
    }
  }

  /** Splitting a join of separator-free pieces gives back the pieces. */
  lemma {:induction false} SplitJoin(parts: seq<string>, sep: char)
    requires parts != []
    requires forall i :: 0 <= i < |parts| ==> sep !in parts[i]
    ensures Split(Join(parts, sep), sep) == parts
  {
    if |parts| == 1 {
      SplitFree(parts[0], sep);
    } else {
      SplitJoin(parts[1..], sep);
      assert Join(parts, sep) == parts[0] + ([sep] + Join(parts[1..], sep));
      SplitAround(parts[0], Join(parts[1..], sep), sep);
      SplitFree(parts[0], sep);
      assert parts == [parts[0]] + parts[1..];
    }
  }

  /** A string without the separator splits into itself. */
  lemma {:induction false} SplitFree(s: string, sep: char)
    requires sep !in s
    ensures Split(s, sep) == [s]
  {
    if s != [] {
      SplitFree(s[1..], sep);
      assert [s[0]] + s[1..] == s;
    }
  }

  /** Splitting around one separator splits each side independently. */
  lemma {:induction false} SplitAround(a: string, b: string, sep: char)
    ensures Split(a + ([sep] + b), sep) == Split(a, sep) + Split(b, sep)
  {
    var w := a + ([sep] + b);
    if a == [] {
      assert w == [sep] + b;
      assert w[1..] == b;
    } else {
      assert w[0] == a[0];
      assert w[1..] == a[1..] + ([sep] + b);
      SplitAround(a[1..], b, sep);
      var restW := Split(w[1..], sep);
      var restA := Split(a[1..], sep);
      assert restW == restA + Split(b, sep);
      if a[0] != sep {
        assert restW[0] == restA[0];
        assert restW[1..] == restA[1..] + Split(b, sep);
      }
    }
  }

  /** posixpath.join(directory, name) for a single name. */
  function PathJoin(directory: string, name: string): string {
    if StartsWith(name, "/") then name
    else if directory == [] || EndsWith(directory, "/") then directory + name
    else directory + "/" + name
  }

  /** key.split("/")[-1]: the last path segment. */
  function Basename(key: string): string {
    Last(Split(key, '/'))
  }

  /** A joined path starts with the directory, ends with the name, and its last segment is the
      name when the name holds no '/'. */
  lemma PathJoinParts(directory: string, name: string)
    requires name != [] && '/' !in name
    ensures StartsWith(PathJoin(directory, name), directory)
    ensures EndsWith(PathJoin(directory, name), name)
    ensures Basename(PathJoin(directory, name)) == name
  {
    var p := PathJoin(directory, name);
    assert !StartsWith(name, "/") by { assert name[0] != '/'; }
    SplitFree(name, '/');
    if directory == [] {
      assert p == name;
    } else if EndsWith(directory, "/") {
      var d := directory[..|directory| - 1];
      assert directory == d + ['/'];
      assert p == d + (['/'] + name);
      SplitAround(d, name, '/');
      assert p[..|directory|] == directory;
      assert p[|p| - |name|..] == name;
    } else {
      assert p == directory + (['/'] + name);
      SplitAround(directory, name, '/');
      assert p[..|directory|] == directory;
      assert p[|p| - |name|..] == name;
    }
  }

  /** A relative name that does not end in '/' joins into a path under the directory that
      does not end in '/' either. */
  lemma PathJoinUnder(directory: string, name: string)
    requires name != [] && name[0] != '/' && name[|name| - 1] != '/'
    ensures StartsWith(PathJoin(directory, name), directory)
    ensures !EndsWith(PathJoin(directory, name), "/")
  {
    var p := PathJoin(directory, name);
    assert !StartsWith(name, "/");
    if directory == [] || EndsWith(directory, "/") {
      assert p == directory + name;
    } else {
      assert p == directory + ("/" + name);
    }
    assert p[..|directory|] == directory;
    assert p[|p| - 1] == name[|name| - 1];
  }

  /** Joining is injective in the name under a fixed directory, for names that are not absolute. */
  lemma PathJoinInjective(directory: string, a: string, b: string)
    requires !StartsWith(a, "/") && !StartsWith(b, "/")
    requires PathJoin(directory, a) == PathJoin(directory, b)
    ensures a == b
  {
    var d := if directory == [] || EndsWith(directory, "/") then directory else directory + "/";
    assert PathJoin(directory, a) == d + a && PathJoin(directory, b) == d + b;
    assert a == (d + a)[|d|..];
    assert b == (d + b)[|d|..];
  }
}
