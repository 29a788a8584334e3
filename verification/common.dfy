/** Small shared vocabulary: optional values and separator-based joining and splitting of text. */
module Common {

  /** A value that may be missing (JavaScript `undefined`/`null`). */
  datatype Option<+T> = None | Some(value: T)

  /** `parts` glued together with `sep` between consecutive parts (none before the first or after the last). */
  function Join(sep: string, parts: seq<string>): string
    decreases |parts|
  {
    if |parts| == 0 then ""
    else if |parts| == 1 then parts[0]
    else parts[0] + sep + Join(sep, parts[1..])
  }

  /** Every part preceded by `sep`, concatenated. */
  function Prefixed(sep: string, parts: seq<string>): string
    decreases |parts|
  {
    if |parts| == 0 then "" else sep + parts[0] + Prefixed(sep, parts[1..])
  }

  /** The pieces of `s` between occurrences of `c`, in order (always at least one piece). */
  function Split(s: string, c: char): (r: seq<string>)
    ensures |r| >= 1
    decreases |s|
  {
    if |s| == 0 then [""]
    else if s[0] == c then [""] + Split(s[1..], c)
    else
      var rest := Split(s[1..], c);
      [[s[0]] + rest[0]] + rest[1..]
  }

  /** Joining a first part with the rest is that part followed by each later part behind a separator. */
  lemma {:induction false} JoinIsFirstThenPrefixed(sep: string, parts: seq<string>)
    requires |parts| >= 1
    ensures Join(sep, parts) == parts[0] + Prefixed(sep, parts[1..])
    decreases |parts|
  {
    if |parts| == 1 {
      assert parts[1..] == [];
    } else {
      JoinIsFirstThenPrefixed(sep, parts[1..]);
      assert parts[1..][1..] == parts[2..];
    }
  }

  /** Text free of `c` followed by more text splits as if the text were glued onto the first piece. */
  lemma {:induction false} SplitPlainPrefix(p: string, rest: string, c: char)
    requires c !in p
    ensures Split(p + rest, c) == [p + Split(rest, c)[0]] + Split(rest, c)[1..]
    decreases |p|
  {
    if |p| == 0 {
      var r := Split(rest, c);
      assert p + rest == rest;
      assert p + r[0] == r[0];
      assert [r[0]] + r[1..] == r;
    } else {
      assert (p + rest)[0] == p[0];
      assert (p + rest)[1..] == p[1..] + rest;
      SplitPlainPrefix(p[1..], rest, c);
      assert [p[0]] + (p[1..] + Split(rest, c)[0]) == p + Split(rest, c)[0];
    }
  }

  /** Splitting text at the separator it was joined with gives back the parts, when no part holds the separator. */
  lemma {:induction false} SplitJoin(parts: seq<string>, c: char)
    requires |parts| >= 1
    requires forall i :: 0 <= i < |parts| ==> c !in parts[i]
    ensures Split(Join([c], parts), c) == parts
    decreases |parts|
  {
    if |parts| == 1 {
      SplitPlainPrefix(parts[0], "", c);
      assert parts[0] + "" == parts[0];
    } else {
      var tail := Join([c], parts[1..]);
      assert Join([c], parts) == parts[0] + ([c] + tail);
      SplitPlainPrefix(parts[0], [c] + tail, c);
      assert ([c] + tail)[1..] == tail;
      SplitJoin(parts[1..], c);
      assert Split([c] + tail, c) == [""] + parts[1..];
      assert parts[0] + "" == parts[0];
    }
  }

  /** A character in neither the separator nor any part is not in their join. */
  lemma {:induction false} JoinAvoids(sep: string, parts: seq<string>, c: char)
    requires c !in sep
    requires forall i :: 0 <= i < |parts| ==> c !in parts[i]
    ensures c !in Join(sep, parts)
    decreases |parts|
  {
    if |parts| > 1 {
      JoinAvoids(sep, parts[1..], c);
      assert Join(sep, parts) == parts[0] + sep + Join(sep, parts[1..]);
    }
  }

  /** The text before the first `c` (all of `s` when it holds no `c`). */
  function Before(s: string, c: char): (r: string)
    ensures r <= s
    ensures c !in r
    decreases |s|
  {
    if |s| == 0 || s[0] == c then "" else [s[0]] + Before(s[1..], c)
  }

  /** The text after the first `c`, or `None` when `s` holds no `c`. */
  function After(s: string, c: char): (r: Option<string>)
    ensures r.None? <==> c !in s
    decreases |s|
  {
    if |s| == 0 then None else if s[0] == c then Some(s[1..]) else After(s[1..], c)
  }

  /** Splitting at the first `c` of text whose leading part holds no `c`. */
  lemma {:induction false} FirstOccurrence(p: string, c: char, rest: string)
    requires c !in p
    ensures Before(p + [c] + rest, c) == p
    ensures After(p + [c] + rest, c) == Some(rest)
    decreases |p|
  {
    if |p| == 0 {
      assert p + [c] + rest == [c] + rest;
    } else {
      assert (p + [c] + rest)[1..] == p[1..] + [c] + rest;
      FirstOccurrence(p[1..], c, rest);
      assert [p[0]] + p[1..] == p;
    }
  }

  /** Text that holds no `c` is all "before" it. */
  lemma {:induction false} BeforeAbsent(s: string, c: char)
    requires c !in s
    ensures Before(s, c) == s
    decreases |s|
  {
    if |s| > 0 {
      BeforeAbsent(s[1..], c);
      assert [s[0]] + s[1..] == s;
    }
  }

  /** Joining one more part appends the separator and that part. */
  lemma {:induction false} JoinSnoc(sep: string, parts: seq<string>, p: string)
    requires |parts| >= 1
    ensures Join(sep, parts + [p]) == Join(sep, parts) + sep + p
    decreases |parts|
  {
    if |parts| == 1 {
      assert (parts + [p])[1..] == [p];
    } else {
      assert (parts + [p])[1..] == parts[1..] + [p];
      JoinSnoc(sep, parts[1..], p);
    }
  }
}
