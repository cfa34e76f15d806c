/**
 * Absolute paths of the file system: `str.split("/")`, `"/".join(...)` and
 * `_parse_path`, which keeps the non-empty segments of the split.
 */
module Paths {

  /** A path component: non-empty and free of the separator. */
  predicate IsName(c: string) {
    c != "" && '/' !in c
  }

  /** `s.split("/")`: the maximal separator-free pieces, empty ones included. */
  function Split(s: string): (parts: seq<string>)
    ensures |parts| >= 1
    ensures forall k :: 0 <= k < |parts| ==> '/' !in parts[k]
  {
    if s == [] then [""]
    else if s[0] == '/' then [""] + Split(s[1..])
    else
      var rest := Split(s[1..]);
      [[s[0]] + rest[0]] + rest[1..]
  }

  /** `"/".join(parts)`. */
  function Join(parts: seq<string>): string {
    if parts == [] then ""
    else if |parts| == 1 then parts[0]
    else parts[0] + "/" + Join(parts[1..])
  }

  /** Keep the non-empty strings, in order. */
  function NonEmpty(parts: seq<string>): seq<string> {
    if parts == [] then []
    else NonEmpty(parts[..|parts| - 1]) + (if parts[|parts| - 1] != "" then [parts[|parts| - 1]] else [])
  }

  /** What `_parse_path` returns for `path`. */
  function Components(path: string): seq<string> {
    NonEmpty(Split(path))
  }

  /** Splitting and joining again gives back the string. */
  lemma {:induction false} JoinSplit(s: string)
    ensures Join(Split(s)) == s
  {
    if s == [] {
    } else if s[0] == '/' {
      JoinSplit(s[1..]);
      assert Split(s) == [""] + Split(s[1..]);
    } else {
      JoinSplit(s[1..]);
      var rest := Split(s[1..]);
      if |rest| == 1 {
        assert Join(Split(s)) == [s[0]] + rest[0];
      } else {
        assert Join(rest) == rest[0] + "/" + Join(rest[1..]);
        assert Join(Split(s)) == [s[0]] + rest[0] + "/" + Join(rest[1..]);
      }
      assert s == [s[0]] + s[1..];
    }
  }

  /** Splitting around one separator splits each side separately. */
  lemma {:induction false} SplitAround(a: string, b: string)
    ensures Split(a + "/" + b) == Split(a) + Split(b)
  {
    var s := a + "/" + b;
    if a == [] {
      assert s[0] == '/' && s[1..] == b;
    } else {
      assert s[0] == a[0] && s[1..] == a[1..] + "/" + b;
      SplitAround(a[1..], b);
      var left := Split(a[1..]);
      var rest := Split(s[1..]);
      assert rest == left + Split(b);
      if a[0] == '/' {
        assert Split(s) == [""] + rest;
        assert Split(a) == [""] + left;
      } else {
        assert rest[0] == left[0] && rest[1..] == left[1..] + Split(b);
        assert Split(s) == [[a[0]] + rest[0]] + rest[1..];
        assert Split(a) == [[a[0]] + left[0]] + left[1..];
      }
    }
  }

  /** A string without separator splits into itself. */
  lemma {:induction false} SplitName(c: string)
    requires '/' !in c
    ensures Split(c) == [c]
  {
    if c != [] {
      SplitName(c[1..]);
      assert c == [c[0]] + c[1..];
    }
  }

  /** Joining separator-free parts and splitting again gives back the parts. */
  lemma {:induction false} SplitJoin(parts: seq<string>)
    requires parts != []
    requires forall k :: 0 <= k < |parts| ==> '/' !in parts[k]
    ensures Split(Join(parts)) == parts
  {
    if |parts| == 1 {
      SplitName(parts[0]);
    } else {
      SplitJoin(parts[1..]);
      SplitName(parts[0]);
      SplitAround(parts[0], Join(parts[1..]));
      assert parts == [parts[0]] + parts[1..];
    }
  }

  lemma {:induction false} NonEmptyAppend(a: seq<string>, b: seq<string>)
    ensures NonEmpty(a + b) == NonEmpty(a) + NonEmpty(b)
    decreases |b|
  {
    if b != [] {
      var b' := b[..|b| - 1];
      NonEmptyAppend(a, b');
      assert (a + b)[..|a + b| - 1] == a + b';
      assert (a + b)[|a + b| - 1] == b[|b| - 1];
    } else {
      assert a + b == a;
    }
  }

  lemma {:induction false} NonEmptyOfNames(parts: seq<string>)
    requires forall k :: 0 <= k < |parts| ==> parts[k] != ""
    ensures NonEmpty(parts) == parts
  {
    if parts != [] {
      NonEmptyOfNames(parts[..|parts| - 1]);
    }
  }

  /** Every component `_parse_path` returns is a name. */
  lemma {:induction false} ComponentsAreNames(path: string)
    ensures forall k :: 0 <= k < |Components(path)| ==> IsName(Components(path)[k])
  {
    NonEmptyKeepsNames(Split(path));
  }

  lemma {:induction false} NonEmptyKeepsNames(parts: seq<string>)
    requires forall k :: 0 <= k < |parts| ==> '/' !in parts[k]
    ensures forall k :: 0 <= k < |NonEmpty(parts)| ==> IsName(NonEmpty(parts)[k])
  {
    if parts != [] {
      NonEmptyKeepsNames(parts[..|parts| - 1]);
    }
  }

  /** The components of `a/b` are those of `a` followed by those of `b`. */
  lemma ComponentsAround(a: string, b: string)
    ensures Components(a + "/" + b) == Components(a) + Components(b)
  {
    SplitAround(a, b);
    NonEmptyAppend(Split(a), Split(b));
  }

  /** A single name parses to itself. */
  lemma ComponentsOfName(c: string)
    requires IsName(c)
    ensures Components(c) == [c]
  {
    SplitName(c);
    NonEmptyOfNames([c]);
  }

  /** Doubled and trailing separators are ignored: "/a//b/" parses like "/a/b". */
  lemma EmptySegmentsIgnored(a: string, b: string)
    ensures Components(a + "//" + b) == Components(a + "/" + b)
    ensures Components(a + "/") == Components(a)
  {
    assert a + "//" + b == a + "/" + ("/" + b);
    assert "/" + b == "" + "/" + b;
    ComponentsAround(a, "/" + b);
    ComponentsAround("", b);
    ComponentsAround(a, b);
    assert a + "/" == a + "/" + "";
    ComponentsAround(a, "");
  }

  /**
   * The parent path that `_traverse_to_parent` rebuilds, "/" followed by the
   * components joined with "/", parses back to exactly those components.
   */
  lemma RebuiltPathRoundTrip(comps: seq<string>)
    requires forall k :: 0 <= k < |comps| ==> IsName(comps[k])
    ensures Components("/" + Join(comps)) == comps
  {
    var joined := Join(comps);
    LeadingSeparatorIgnored(joined);
    if comps != [] {
      SplitJoin(comps);
      NonEmptyOfNames(comps);
    }
  }

  /** A leading "/" adds only an empty segment, which parsing drops. */
  lemma LeadingSeparatorIgnored(s: string)
    ensures Components("/" + s) == Components(s)
  {
    var t := "/" + s;
    assert t[0] == '/' && t[1..] == s;
    assert Split(t) == [""] + Split(s);
    NonEmptyAppend([""], Split(s));
    assert NonEmpty([""]) == [];
  }

  /**
   * `_parse_path`: split on "/" and keep the non-empty segments, with the
   * loop of the source.
   */
  method ParsePath(path: string) returns (paths: seq<string>)
    ensures paths == Components(path)
    ensures forall k :: 0 <= k < |paths| ==> IsName(paths[k])
  {
    var parts := Split(path);
    paths := [];
    for i := 0 to |parts|
      invariant paths == NonEmpty(parts[..i])
    {
      assert parts[..i + 1][..i] == parts[..i];
      if parts[i] != "" {
        paths := paths + [parts[i]];
      }
    }
    assert parts[..|parts|] == parts;
    ComponentsAreNames(path);
  }
}
