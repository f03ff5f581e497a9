/**
 * The path compiler: path text such as `spec.containers[name=@^x.*$@].image`
 * becomes a list of segments. Two small character scanners do the work:
 * `SplitPath` cuts the text at dots outside brackets, `FindClosingBracket`
 * finds the `]` that ends a selector, skipping `@...@` regex literals.
 */
module PathParser {
  import opened Wrappers
  import opened PathTypes
  import Regex
  import opened Strconv

  /** Why one dot-separated part of a path did not compile. */
  datatype SegmentError =
    | NoOpeningBracket
    | NoClosingBracket
    | EmptyConditionField
    | EmptyPattern
    | InvalidPattern(pattern: string)
    | UnknownSelector(text: string)

  datatype ParseError =
    | EmptyPath
    | InvalidSegment(part: string, cause: SegmentError)

  // ---------------------------------------------------------------------
  // splitPath

  /**
   * Whether the splitter is inside brackets after reading s: one flag,
   * set by `[` and cleared by `]`, so the last bracket character decides
   * (an `@` plays no part here).
   */
  function InBracketAfter(s: string): bool
  {
    if |s| == 0 then false
    else if s[|s| - 1] == '[' then true
    else if s[|s| - 1] == ']' then false
    else InBracketAfter(s[..|s| - 1])
  }

  /** A dot read outside brackets: the only character that splits a path. */
  predicate IsTopLevelDot(s: string, i: nat)
    requires i < |s|
  {
    s[i] == '.' && !InBracketAfter(s[..i])
  }

  /** s cut at each top-level dot, the dots dropped, empty pieces kept. */
  function Pieces(s: string): (r: seq<string>)
    ensures |r| > 0
  {
    if |s| == 0 then [""]
    else
      var p := Pieces(s[..|s| - 1]);
      if IsTopLevelDot(s, |s| - 1) then p + [""]
      else p[..|p| - 1] + [p[|p| - 1] + [s[|s| - 1]]]
  }

  /** The non-empty members of ps, in order. */
  function NonEmpty(ps: seq<string>): (r: seq<string>)
    ensures |r| <= |ps|
    ensures forall k | 0 <= k < |r| :: r[k] != ""
  {
    if |ps| == 0 then []
    else NonEmpty(ps[..|ps| - 1]) + (if ps[|ps| - 1] == "" then [] else [ps[|ps| - 1]])
  }

  /** The parts `splitPath` returns: the pieces between top-level dots that are not empty. */
  function Split(s: string): seq<string>
  {
    NonEmpty(Pieces(s))
  }

  /** s with its top-level dots deleted; dots inside brackets stay. */
  function DropTopLevelDots(s: string): string
  {
    if |s| == 0 then ""
    else DropTopLevelDots(s[..|s| - 1]) + (if IsTopLevelDot(s, |s| - 1) then "" else [s[|s| - 1]])
  }

  lemma NonEmptyAppend(ps: seq<string>, x: string)
    ensures NonEmpty(ps + [x]) == NonEmpty(ps) + (if x == "" then [] else [x])
  {
    assert (ps + [x])[..|ps|] == ps;
  }

  lemma {:induction false} ConcatNonEmpty(ps: seq<string>)
    ensures Concat(NonEmpty(ps)) == Concat(ps)
  {
    if |ps| > 0 {
      var front, x := ps[..|ps| - 1], ps[|ps| - 1];
      assert ps == front + [x];
      ConcatNonEmpty(front);
      NonEmptyAppend(front, x);
      ConcatSnoc(front, x);
      if x != "" {
        ConcatSnoc(NonEmpty(front), x);
      } else {
        assert NonEmpty(ps) == NonEmpty(front);
      }
    }
  }

  lemma {:induction false} ConcatPieces(s: string)
    ensures Concat(Pieces(s)) == DropTopLevelDots(s)
  {
    if |s| > 0 {
      var init := s[..|s| - 1];
      ConcatPieces(init);
      var p := Pieces(init);
      var front := p[..|p| - 1];
      assert p == front + [p[|p| - 1]];
      ConcatSnoc(front, p[|p| - 1]);
      if IsTopLevelDot(s, |s| - 1) {
        ConcatSnoc(p, "");
      } else {
        ConcatSnoc(front, p[|p| - 1] + [s[|s| - 1]]);
      }
    }
  }

  /**
   * Splitting loses nothing but the top-level dots: the parts, put back
   * together, are the path without them, so dots inside brackets are kept.
   */
  lemma SplitConcat(s: string)
    ensures Concat(Split(s)) == DropTopLevelDots(s)
    ensures forall k | 0 <= k < |Split(s)| :: Split(s)[k] != ""
  {
    ConcatNonEmpty(Pieces(s));
    ConcatPieces(s);
  }

  /** Leading, trailing and doubled dots leave no part behind: "." has none. */
  lemma SplitLoneDot()
    ensures Split(".") == []
  {
    assert "."[..0] == "";
    assert Pieces(".") == ["", ""];
  }

  /** `splitPath`: one pass over the characters with a bracket flag and a current part. */
  method SplitPath(s: string) returns (parts: seq<string>)
    ensures parts == Split(s)
    ensures forall k | 0 <= k < |parts| :: parts[k] != ""
  {
    parts := [];
    var current := "";
    var inBracket := false;
    for i := 0 to |s|
      invariant inBracket == InBracketAfter(s[..i])
      invariant current == Pieces(s[..i])[|Pieces(s[..i])| - 1]
      invariant parts == NonEmpty(Pieces(s[..i])[..|Pieces(s[..i])| - 1])
    {
      parts, current, inBracket := SplitStep(s, i, parts, current, inBracket);
    }
    assert s[..|s|] == s;
    ghost var p := Pieces(s);
    assert p == p[..|p| - 1] + [current];
    NonEmptyAppend(p[..|p| - 1], current);
    if |current| > 0 {
      parts := parts + [current];
    }
  }

  /** One pass of the `splitPath` loop: character i read. */
  method SplitStep(s: string, i: nat, parts: seq<string>, current: string, inBracket: bool)
    returns (parts2: seq<string>, current2: string, inBracket2: bool)
    requires i < |s|
    requires inBracket == InBracketAfter(s[..i])
    requires current == Pieces(s[..i])[|Pieces(s[..i])| - 1]
    requires parts == NonEmpty(Pieces(s[..i])[..|Pieces(s[..i])| - 1])
    ensures inBracket2 == InBracketAfter(s[..i + 1])
    ensures current2 == Pieces(s[..i + 1])[|Pieces(s[..i + 1])| - 1]
    ensures parts2 == NonEmpty(Pieces(s[..i + 1])[..|Pieces(s[..i + 1])| - 1])
  {
    var ch := s[i];
    assert s[..i + 1][..i] == s[..i];
    ghost var p := Pieces(s[..i]);
    assert p == p[..|p| - 1] + [current];
    parts2, current2, inBracket2 := parts, current, inBracket;
    if ch == '[' {
      inBracket2 := true;
      current2 := current + [ch];
    } else if ch == ']' {
      inBracket2 := false;
      current2 := current + [ch];
    } else if ch == '.' {
      if inBracket {
        current2 := current + [ch];
      } else {
        NonEmptyAppend(p[..|p| - 1], current);
        assert (p + [""])[..|p|] == p;
        if |current| > 0 {
          parts2 := parts + [current];
          current2 := "";
        }
      }
    } else {
      current2 := current + [ch];
    }
  }

  // ---------------------------------------------------------------------
  // findClosingBracket

  /** The number of `@` characters in s. */
  function CountAt(s: string): nat
  {
    if |s| == 0 then 0 else CountAt(s[..|s| - 1]) + (if s[|s| - 1] == '@' then 1 else 0)
  }

  /**
   * s[i] is a `]` that closes a selector opened just before start: every
   * `@` read since start toggles a regex span, and the `]` must lie outside
   * one.
   */
  predicate ClosesAt(s: string, start: nat, i: nat)
  {
    start <= i < |s| && s[i] == ']' && CountAt(s[start..i]) % 2 == 0
  }

  /** The first closing index at or after i, or -1 when there is none. */
  function ClosingFrom(s: string, start: nat, i: nat): (r: int)
    requires start <= i
    ensures r == -1 || (i <= r && ClosesAt(s, start, r))
    ensures r == -1 ==> forall j | i <= j :: !ClosesAt(s, start, j)
    ensures r >= 0 ==> forall j | i <= j < r :: !ClosesAt(s, start, j)
    decreases |s| - i
  {
    if i >= |s| then -1
    else if ClosesAt(s, start, i) then i
    else ClosingFrom(s, start, i + 1)
  }

  function ClosingBracket(s: string, start: nat): int
  {
    ClosingFrom(s, start, start)
  }

  /** `findClosingBracket`: the index of the first selector-closing `]` at or after start, or -1. */
  method FindClosingBracket(s: string, start: nat) returns (r: int)
    ensures r == ClosingBracket(s, start)
    ensures r == -1 || ClosesAt(s, start, r)
  {
    var inRegex := false;
    var i := start;
    while i < |s|
      invariant start <= i
      invariant i <= |s| ==> inRegex == (CountAt(s[start..i]) % 2 == 1)
      invariant forall j | start <= j < i :: !ClosesAt(s, start, j)
      decreases |s| - i
    {
      var ch := s[i];
      assert s[start..i + 1][..i - start] == s[start..i];
      if ch == '@' {
        inRegex := !inRegex;
      }
      if ch == ']' && !inRegex {
        assert ClosesAt(s, start, i);
        return i;
      }
      i := i + 1;
    }
    return -1;
  }

  // ---------------------------------------------------------------------
  // parseSegment, parseArraySegment, parseSelector

  /** `strings.Index` for one character. */
  function IndexOf(s: string, c: char): (r: Option<nat>)
    ensures r.Some? ==> r.value < |s| && s[r.value] == c && c !in s[..r.value]
    ensures r.None? ==> c !in s
  {
    if |s| == 0 then None
    else if s[0] == c then Some(0)
    else match IndexOf(s[1..], c)
      case None => None
      case Some(k) =>
        assert s[..k + 1] == [s[0]] + s[1..][..k];
        Some(k + 1)
  }

  /** `strings.HasPrefix(v, "@") && strings.HasSuffix(v, "@")`; a lone "@" qualifies. */
  predicate IsRegexLiteral(v: string)
  {
    |v| > 0 && v[0] == '@' && v[|v| - 1] == '@'
  }

  function TrimLeftAt(s: string): (r: string)
    ensures |r| == 0 || r[0] != '@'
  {
    if |s| > 0 && s[0] == '@' then TrimLeftAt(s[1..]) else s
  }

  function TrimRightAt(s: string): (r: string)
    ensures |r| == 0 || r[|r| - 1] != '@'
    ensures |r| <= |s| && r == s[..|r|]
  {
    if |s| > 0 && s[|s| - 1] == '@' then TrimRightAt(s[..|s| - 1]) else s
  }

  /** `strings.Trim(v, "@")`: every leading and trailing `@` removed. */
  function TrimAt(s: string): (r: string)
    ensures |r| == 0 || (r[0] != '@' && r[|r| - 1] != '@')
  {
    TrimRightAt(TrimLeftAt(s))
  }

  /**
   * `parseSelector`, tried in order: `*` and `?` are wildcards; text that
   * `strconv.Atoi` accepts is an index; text with an `=` is a condition
   * split at the first `=`, a regex condition when the value is wrapped
   * in `@` (the pattern is validated here with the path dialect), an
   * equality condition otherwise; anything else is unknown syntax.
   */
  function ParseSelector(s: string, re2: Regex.Dialect): (r: Result<Selector, SegmentError>)
    ensures r.Ok? && r.value.Wildcard? <==> s == "*" || s == "?"
    ensures r.Ok? && r.value.Index? ==> Atoi(s) == Some(r.value.index)
    ensures r.Ok? && r.value.Cond? ==>
      var c := r.value.cond;
      c.field != "" && '=' !in c.field && c.op != NotEqual && c.field + "=" <= s
    ensures r.Ok? && r.value.Cond? && r.value.cond.op == Regex ==>
      r.value.cond.value != "" && re2.valid(r.value.cond.value)
    ensures r.Err? ==> s != "*" && s != "?" && Atoi(s).None?
    ensures r.Ok? && r.value.Cond? ==>
      var c := r.value.cond;
      var v := s[|c.field| + 1..];
      (c.op == Regex <==> IsRegexLiteral(v)) && c.value == (if IsRegexLiteral(v) then TrimAt(v) else v)
    ensures s != "*" && s != "?" && Atoi(s).None? && '=' !in s ==> r == Err(UnknownSelector(s))
    ensures '=' in s ==>
      var k := IndexOf(s, '=').value;
      var v := s[k + 1..];
      (k == 0 ==> r == Err(EmptyConditionField)) &&
      (k > 0 && IsRegexLiteral(v) && TrimAt(v) == "" ==> r == Err(EmptyPattern)) &&
      (k > 0 && IsRegexLiteral(v) && TrimAt(v) != "" && !re2.valid(TrimAt(v)) ==>
        r == Err(InvalidPattern(TrimAt(v)))) &&
      (k > 0 && (!IsRegexLiteral(v) || (TrimAt(v) != "" && re2.valid(TrimAt(v)))) ==>
        r.Ok? && r.value.Cond? && r.value.cond.field == s[..k])
  {
    if s == "*" then Ok(Wildcard)
    else if s == "?" then Ok(Wildcard)
    else if Atoi(s).Some? then Ok(Index(Atoi(s).value))
    else match IndexOf(s, '=')
      case None => Err(UnknownSelector(s))
      case Some(k) =>
        var field, value := s[..k], s[k + 1..];
        assert field + "=" == s[..k + 1];
        if field == "" then Err(EmptyConditionField)
        else if IsRegexLiteral(value) then
          var pattern := TrimAt(value);
          if pattern == "" then Err(EmptyPattern)
          else if !re2.valid(pattern) then Err(InvalidPattern(pattern))
          else Ok(Cond(Condition(field, Regex, pattern)))
        else Ok(Cond(Condition(field, Equal, value)))
  }

  /**
   * `parseArraySegment`: the field is the text before the first `[` (it may
   * be empty), the selector the text up to the closing bracket; whatever
   * follows the closing bracket is not looked at.
   */
  function ParseArraySegment(part: string, re2: Regex.Dialect): (r: Result<Segment, SegmentError>)
    ensures r.Ok? ==> r.value.Array?
    ensures r.Ok? ==>
      var b := |r.value.field|;
      b < |part| && part[..b] == r.value.field && part[b] == '[' && '[' !in r.value.field
    ensures '[' !in part ==> r == Err(NoOpeningBracket)
    ensures r.Ok? ==>
      var b := |r.value.field|;
      var e := ClosingBracket(part, b + 1);
      b + 1 <= e <= |part| && ParseSelector(part[b + 1..e], re2) == Ok(r.value.selector)
    ensures '[' in part ==>
      var b := IndexOf(part, '[').value;
      var e := ClosingBracket(part, b + 1);
      (e == -1 ==> r == Err(NoClosingBracket)) &&
      (b + 1 <= e <= |part| && ParseSelector(part[b + 1..e], re2).Err? ==>
        r == Err(ParseSelector(part[b + 1..e], re2).error))
  {
    match IndexOf(part, '[')
    case None => Err(NoOpeningBracket)
    case Some(b) =>
      var e := ClosingBracket(part, b + 1);
      if e == -1 then Err(NoClosingBracket)
      else match ParseSelector(part[b + 1..e], re2)
        case Err(err) => Err(err)
        case Ok(sel) => Ok(Array(part[..b], sel))
  }

  /** `parseSegment`: a part without `[` is a field segment named by the whole part. */
  function ParseSegment(part: string, re2: Regex.Dialect): (r: Result<Segment, SegmentError>)
    ensures '[' !in part ==> r == Ok(Field(part))
    ensures '[' in part ==> r == ParseArraySegment(part, re2) && (r.Ok? ==> r.value.Array?)
  {
    if '[' in part then ParseArraySegment(part, re2) else Ok(Field(part))
  }

  /** Below the end of u, the closing bracket of u + t is found in u alone. */
  lemma {:induction false} ClosingFromPrefix(u: string, t: string, start: nat, i: nat)
    requires start <= i
    ensures 0 <= ClosingFrom(u + t, start, i) < |u| ==> ClosingFrom(u, start, i) == ClosingFrom(u + t, start, i)
    ensures ClosingFrom(u, start, i) >= 0 ==> ClosingFrom(u + t, start, i) == ClosingFrom(u, start, i)
    decreases |u| - i
  {
    if i < |u| {
      assert (u + t)[start..i] == u[start..i];
      assert (u + t)[i] == u[i];
      assert ClosesAt(u + t, start, i) == ClosesAt(u, start, i);
      if !ClosesAt(u, start, i) {
        ClosingFromPrefix(u, t, start, i + 1);
      }
    }
  }

  /** The first occurrence of c in u + t, when it lies in u, is the first in u alone. */
  lemma {:induction false} IndexOfPrefix(u: string, t: string, c: char)
    ensures IndexOf(u + t, c).Some? && IndexOf(u + t, c).value < |u| ==> IndexOf(u, c) == IndexOf(u + t, c)
    ensures IndexOf(u, c).Some? ==> IndexOf(u + t, c) == IndexOf(u, c)
  {
    if |u| > 0 {
      assert (u + t)[0] == u[0];
      assert (u + t)[1..] == u[1..] + t;
      IndexOfPrefix(u[1..], t, c);
    }
  }

  /**
   * Text after the closing bracket of an array segment is silently ignored:
   * with the part's first `[` at b and its closing bracket at e, anything
   * appended after e leaves the parsed segment as it is.
   */
  lemma TrailingTextIgnored(part: string, tail: string, re2: Regex.Dialect, b: nat, e: int)
    requires IndexOf(part, '[') == Some(b) && e == ClosingBracket(part, b + 1) && e >= 0
    ensures ParseArraySegment(part[..e + 1] + tail, re2) == ParseArraySegment(part, re2)
  {
    TrailingFacts(part, tail, b, e);
    SameArraySegment(part[..e + 1] + tail, part, b, e, re2);
  }

  /** Cutting a part after its closing bracket and appending text keeps its brackets, field and selector. */
  lemma TrailingFacts(part: string, tail: string, b: nat, e: int)
    requires IndexOf(part, '[') == Some(b) && e == ClosingBracket(part, b + 1) && e >= 0
    ensures b + 1 <= e < |part|
    ensures var s := part[..e + 1] + tail;
      IndexOf(s, '[') == Some(b) && ClosingBracket(s, b + 1) == e && e <= |s| &&
      s[..b] == part[..b] && s[b + 1..e] == part[b + 1..e]
  {
    var u, rest := part[..e + 1], part[e + 1..];
    BracketsOfHead(part, u, rest, b, e);
    BracketsKept(u, tail, b, e);
    SliceOfPrefix(u, tail, b + 1, e);
    SliceOfPrefix(u, rest, b + 1, e);
    SliceOfPrefix(u, tail, 0, b);
    SliceOfPrefix(u, rest, 0, b);
  }

  /** A part's first `[` and its closing bracket are those of the part cut just after that bracket. */
  lemma BracketsOfHead(part: string, u: string, rest: string, b: nat, e: int)
    requires IndexOf(part, '[') == Some(b) && e == ClosingBracket(part, b + 1) && e >= 0
    requires u == part[..e + 1] && rest == part[e + 1..]
    ensures IndexOf(u, '[') == Some(b) && ClosingBracket(u, b + 1) == e
  {
    assert part == u + rest;
    IndexOfPrefix(u, rest, '[');
    ClosingFromPrefix(u, rest, b + 1, b + 1);
  }

  /** Appending text keeps the first `[` and its closing bracket where they were. */
  lemma BracketsKept(u: string, t: string, b: nat, e: int)
    requires IndexOf(u, '[') == Some(b) && e == ClosingBracket(u, b + 1) && e >= 0
    ensures IndexOf(u + t, '[') == Some(b) && ClosingBracket(u + t, b + 1) == e
  {
    IndexOfPrefix(u, t, '[');
    ClosingFromPrefix(u, t, b + 1, b + 1);
  }

  /** Two parts with the same brackets, field and selector text parse alike. */
  lemma SameArraySegment(s: string, part: string, b: nat, e: int, re2: Regex.Dialect)
    requires IndexOf(s, '[') == Some(b) && IndexOf(part, '[') == Some(b)
    requires ClosingBracket(s, b + 1) == e && ClosingBracket(part, b + 1) == e && b + 1 <= e
    requires e <= |s| && e <= |part|
    requires s[..b] == part[..b] && s[b + 1..e] == part[b + 1..e]
    ensures ParseArraySegment(s, re2) == ParseArraySegment(part, re2)
  {
    ArraySegmentOf(s, b, e, re2);
    ArraySegmentOf(part, b, e, re2);
  }

  /** An array part is its field and the parse of its selector text. */
  lemma ArraySegmentOf(s: string, b: nat, e: int, re2: Regex.Dialect)
    requires IndexOf(s, '[') == Some(b) && ClosingBracket(s, b + 1) == e && b + 1 <= e <= |s|
    ensures ParseArraySegment(s, re2) ==
      match ParseSelector(s[b + 1..e], re2)
      case Ok(sel) => Ok(Array(s[..b], sel))
      case Err(x) => Err(x)
  {
  }

  // ---------------------------------------------------------------------
  // Parse

  /**
   * Compiling a list of parts: every part compiles, one segment each and
   * in order, or the first part that does not is reported.
   */
  function ParseParts(parts: seq<string>, re2: Regex.Dialect): Result<Path, ParseError>
  {
    if |parts| == 0 then Ok([])
    else
      var front, last := parts[..|parts| - 1], parts[|parts| - 1];
      match ParseParts(front, re2)
      case Err(e) => Err(e)
      case Ok(segs) =>
        match ParseSegment(last, re2)
        case Err(e) => Err(InvalidSegment(last, e))
        case Ok(seg) => Ok(segs + [seg])
  }

  /** What compiling the parts gives, stated part by part. */
  lemma ParsePartsSpec(parts: seq<string>, re2: Regex.Dialect)
    ensures ParseParts(parts, re2).Ok? <==> forall k | 0 <= k < |parts| :: ParseSegment(parts[k], re2).Ok?
    ensures ParseParts(parts, re2).Ok? ==>
      |ParseParts(parts, re2).value| == |parts| &&
      forall k | 0 <= k < |parts| :: ParseSegment(parts[k], re2) == Ok(ParseParts(parts, re2).value[k])
    ensures ParseParts(parts, re2).Err? ==> exists k | 0 <= k < |parts| ::
      (forall j | 0 <= j < k :: ParseSegment(parts[j], re2).Ok?) &&
      ParseSegment(parts[k], re2).Err? &&
      ParseParts(parts, re2).error == InvalidSegment(parts[k], ParseSegment(parts[k], re2).error)
  {
    ParsePartsOk(parts, re2);
    ParsePartsErr(parts, re2);
  }

  /** A successful compilation holds each part's segment at the part's position. */
  lemma {:induction false} ParsePartsOk(parts: seq<string>, re2: Regex.Dialect)
    ensures ParseParts(parts, re2).Ok? ==>
      |ParseParts(parts, re2).value| == |parts| &&
      forall k | 0 <= k < |parts| :: ParseSegment(parts[k], re2) == Ok(ParseParts(parts, re2).value[k])
  {
    if |parts| > 0 {
      var front, last := parts[..|parts| - 1], parts[|parts| - 1];
      ParsePartsOk(front, re2);
      var r := ParseParts(parts, re2);
      if r.Ok? {
        var segs := ParseParts(front, re2).value;
        var seg := ParseSegment(last, re2).value;
        assert r.value == segs + [seg];
        forall k | 0 <= k < |parts|
          ensures ParseSegment(parts[k], re2) == Ok(r.value[k])
        {
          if k < |front| {
            assert parts[k] == front[k] && r.value[k] == segs[k];
          }
        }
      }
    }
  }

  /** A failed compilation reports the first part that does not compile. */
  lemma {:induction false} ParsePartsErr(parts: seq<string>, re2: Regex.Dialect)
    ensures ParseParts(parts, re2).Err? ==> exists k | 0 <= k < |parts| ::
      (forall j | 0 <= j < k :: ParseSegment(parts[j], re2).Ok?) &&
      ParseSegment(parts[k], re2).Err? &&
      ParseParts(parts, re2).error == InvalidSegment(parts[k], ParseSegment(parts[k], re2).error)
  {
    if |parts| > 0 {
      var front, last := parts[..|parts| - 1], parts[|parts| - 1];
      ParsePartsErr(front, re2);
      ParsePartsOk(front, re2);
      var r := ParseParts(parts, re2);
      if ParseParts(front, re2).Err? {
        var e := ParseParts(front, re2).error;
        var k :| 0 <= k < |front| &&
          (forall j | 0 <= j < k :: ParseSegment(front[j], re2).Ok?) &&
          ParseSegment(front[k], re2).Err? &&
          e == InvalidSegment(front[k], ParseSegment(front[k], re2).error);
        assert forall j | 0 <= j <= k :: parts[j] == front[j];
      } else if r.Err? {
        assert forall j | 0 <= j < |front| :: parts[j] == front[j];
        assert r.error == InvalidSegment(parts[|front|], ParseSegment(parts[|front|], re2).error);
      }
    }
  }

  /** Once a prefix of the parts fails, the whole list fails with the same error. */
  lemma {:induction false} ParsePartsPrefixErr(parts: seq<string>, i: nat, re2: Regex.Dialect)
    requires i <= |parts|
    requires ParseParts(parts[..i], re2).Err?
    ensures ParseParts(parts, re2) == ParseParts(parts[..i], re2)
    decreases |parts| - i
  {
    if i < |parts| {
      assert parts[..i + 1][..i] == parts[..i];
      ParsePartsPrefixErr(parts, i + 1, re2);
    } else {
      assert parts[..i] == parts;
    }
  }

  /** `Parse` as a function: the empty path is an error, otherwise the split parts are compiled. */
  function Compile(s: string, re2: Regex.Dialect): Result<Path, ParseError>
  {
    if s == "" then Err(EmptyPath) else ParseParts(Split(s), re2)
  }

  /** `Parse`: split the path, then compile the parts one by one, stopping at the first error. */
  method Parse(s: string, re2: Regex.Dialect) returns (r: Result<Path, ParseError>)
    ensures r == Compile(s, re2)
    ensures s == "" <==> r == Err(EmptyPath)
  {
    if s == "" {
      return Err(EmptyPath);
    }
    var parts := SplitPath(s);
    var segments: Path := [];
    for i := 0 to |parts|
      invariant ParseParts(parts[..i], re2) == Ok(segments)
    {
      assert parts[..i + 1][..i] == parts[..i];
      var part := parts[i];
      var seg := ParseSegment(part, re2);
      if seg.Err? {
        ParsePartsPrefixErr(parts, i + 1, re2);
        return Err(InvalidSegment(part, seg.error));
      }
      segments := segments + [seg.value];
    }
    assert parts[..|parts|] == parts;
    r := Ok(segments);
  }

  /** A lone dot is a path with no segments, not an error. */
  lemma CompileLoneDot(re2: Regex.Dialect)
    ensures Compile(".", re2) == Ok([])
  {
    SplitLoneDot();
  }
}
