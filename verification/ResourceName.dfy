/** The segment scanner of resource names. */
module Scanning {
  import opened Wrappers
  import opened Text

  predicate Full(name: string) {
    |name| >= 2 && name[0] == '/' && name[1] == '/'
  }

  /** Where the service name of a full resource name ends. */
  function ServiceEnd(name: string): (end: nat)
    requires Full(name)
    ensures 2 <= end <= |name|
  {
    2 + IndexOf(name[2..], '/')
  }

  function ServiceName(name: string): string {
    if Full(name) then name[2..ServiceEnd(name)] else ""
  }

  /** Where the resource segments start: behind any service prefix or one leading slash. */
  function BodyStart(name: string): (start: Option<nat>)
    ensures start.Some? ==> start.value <= |name|
  {
    if name == "" || (Full(name) && ServiceEnd(name) == |name|) then None
    else if Full(name) then Some(ServiceEnd(name) + 1)
    else if name[0] == '/' then Some(1)
    else Some(0)
  }

  /** The part with the resource segments. */
  function Body(name: string): Option<string> {
    var start := BodyStart(name);
    if start.None? then None else Some(name[start.value..])
  }

  /** The segments of a name are the slash-separated pieces of its body. */
  function Segments(name: string): seq<string> {
    var body := Body(name);
    if body.None? then [] else Split(body.value, '/')
  }

  /** The segments behind the one that ends at `end`. */
  function Behind(name: string, end: nat): seq<string>
    requires end <= |name|
  {
    if end == |name| then [] else Split(name[end + 1..], '/')
  }

  class Scanner {
    const name: string
    var start: nat
    var end: nat
    var serviceStart: nat
    var serviceEnd: nat
    var full: bool

    ghost predicate Valid()
      reads this
    {
      start <= end <= |name| && serviceStart <= serviceEnd <= |name|
      && (0 < end < |name| ==> name[end] == '/')
      && (end == 0 && name != "" ==> !full && serviceStart == serviceEnd == 0)
      && (end > 0 || name == "" ==> ServiceFound())
    }

    /** The service prefix has been looked at. */
    ghost predicate ServiceFound()
      requires serviceStart <= serviceEnd <= |name|
      reads this`full, this`serviceStart, this`serviceEnd
    {
      full == Full(name) && name[serviceStart..serviceEnd] == ServiceName(name)
    }

    /** The segments still to be yielded. */
    ghost function Rest(): seq<string>
      requires Valid()
      reads this
    {
      if end == 0 then Segments(name) else Behind(name, end)
    }

    constructor (name: string)
      ensures Valid() && Rest() == Segments(name) && this.name == name
    {
      this.name := name;
      start, end, serviceStart, serviceEnd, full := 0, 0, 0, 0, false;
    }

    method Scan() returns (segment: Option<string>)
      requires Valid()
      modifies this
      ensures Valid()
      ensures old(Rest()) == [] ==> segment == None && Rest() == []
      ensures old(Rest()) != [] ==> segment == Some(old(Rest())[0]) && Rest() == old(Rest())[1..]
    {
      if end == |name| {
        return None;
      }
      ghost var rest := Rest();
      if end == 0 {
        var body := FirstScan();
        if !body {
          return None;
        }
      } else {
        start := end + 1;
      }
      var piece := Take(rest);
      return Some(piece);
    }

    /** Take the segment that starts at `start`. */
    method Take(ghost rest: seq<string>) returns (segment: string)
      requires start <= |name| && rest == Split(name[start..], '/') && (start == 0 ==> name != "" && name[0] != '/')
      modifies this`end
      ensures 0 < end && start <= end <= |name| && (end < |name| ==> name[end] == '/')
      ensures rest != [] && segment == rest[0] && Behind(name, end) == rest[1..]
    {
      end := start + IndexOf(name[start..], '/');
      FirstPiece(name, start, end);
      HeadAndTail(rest, name[start..end], Behind(name, end));
      segment := name[start..end];
    }

    /** The first scan looks for a service prefix or a leading slash; false when there are no
        resource segments. */
    method FirstScan() returns (body: bool)
      requires Valid() && end == 0 && name != ""
      modifies this
      ensures body == BodyStart(name).Some?
      ensures serviceStart <= serviceEnd <= |name| && ServiceFound()
      ensures body ==> start == BodyStart(name).value && end == 0 && Split(name[start..], '/') == Segments(name)
                       && (start == 0 ==> name[0] != '/')
      ensures !body ==> start == end == |name|
    {
      if Full(name) {
        full := true;
        serviceStart, serviceEnd := 2, 2 + IndexOf(name[2..], '/');
        if serviceEnd == |name| {
          start, end := |name|, |name|;
          return false;
        }
        start := serviceEnd + 1;
      } else if name[0] == '/' {
        start := 1;
      } else {
        start := 0;
      }
      return true;
    }
  }

  lemma SlicesOfRest(name: string, start: nat, i: nat)
    requires start <= |name| && i <= |name| - start
    ensures name[start..][..i] == name[start..start + i]
    ensures i < |name| - start ==> name[start..][i] == name[start + i] && name[start..][i + 1..] == name[start + i + 1..]
    ensures i == |name| - start ==> name[start..start + i] == name[start..]
  {}

  lemma HeadAndTail(all: seq<string>, head: string, tail: seq<string>)
    requires all == [head] + tail
    ensures all != [] && all[0] == head && all[1..] == tail
  {}

  lemma {:induction false} SplitStep(s: string)
    ensures var i := IndexOf(s, '/');
            Split(s, '/') == if i == |s| then [s] else [s[..i]] + Split(s[i + 1..], '/')
  {}

  lemma {:induction false} SplitAt(s: string, i: nat, head: string, tail: string)
    requires i == IndexOf(s, '/') < |s| && head == s[..i] && tail == s[i + 1..]
    ensures s[i] == '/' && Split(s, '/') == [head] + Split(tail, '/')
  {}

  lemma LastPiece(piece: string)
    ensures [piece] + [] == [piece]
  {}

  lemma FinalPiece(name: string, start: nat)
    requires start <= |name| && IndexOf(name[start..], '/') == |name| - start
    ensures Split(name[start..], '/') == [name[start..|name|]] + Behind(name, |name|)
  {
    var rest := name[start..];
    assert rest == name[start..|name|];
    SplitStep(rest);
    LastPiece(rest);
  }

  lemma InnerPiece(name: string, start: nat, end: nat)
    requires start <= |name| && end == start + IndexOf(name[start..], '/') < |name|
    ensures name[end] == '/' && Split(name[start..], '/') == [name[start..end]] + Behind(name, end)
  {
    SlicesOfRest(name, start, end - start);
    SplitAt(name[start..], end - start, name[start..end], name[end + 1..]);
  }

  /** The first piece of the rest of the name, and the pieces behind it. */
  lemma FirstPiece(name: string, start: nat, end: nat)
    requires start <= |name| && end == start + IndexOf(name[start..], '/')
    ensures end <= |name| && (end < |name| ==> name[end] == '/')
    ensures Split(name[start..], '/') == [name[start..end]] + Behind(name, end)
  {
    if end == |name| {
      FinalPiece(name, start);
    } else {
      InnerPiece(name, start, end);
    }
  }

  lemma Taken(done: seq<string>, rest: seq<string>)
    requires rest != []
    ensures done + [rest[0]] + rest[1..] == done + rest
  {
    assert rest == [rest[0]] + rest[1..];
  }

  /** `name_segments`. */
  method NameSegments(name: string) returns (segments: seq<string>)
    ensures segments == Segments(name)
  {
    var scanner := new Scanner(name);
    segments := [];
    while true
      invariant fresh(scanner) && scanner.Valid() && segments + scanner.Rest() == Segments(name)
      decreases |scanner.Rest()|
    {
      ghost var rest := scanner.Rest();
      var segment := scanner.Scan();
      if segment.None? {
        break;
      }
      Taken(segments, rest);
      segments := segments + [segment.value];
    }
  }
}

/** DNS names: the byte loop and what it accepts. */
module DomainNames {
  import opened Text

  predicate Letter(c: char) {
    'a' <= c <= 'z' || 'A' <= c <= 'Z' || c == '_' || '0' <= c <= '9'
  }

  /** 1 to 63 letters, digits, underscores and dashes, with no dash at either end. */
  predicate Label(s: string) {
    1 <= |s| <= 63 && s[0] != '-' && s[|s| - 1] != '-'
    && forall i :: 0 <= i < |s| ==> Letter(s[i]) || s[i] == '-'
  }

  /** Without one trailing dot. */
  function Relative(s: string): string {
    if s != "" && s[|s| - 1] == '.' then s[..|s| - 1] else s
  }

  ghost predicate AllLabels(pieces: seq<string>) {
    forall piece :: piece in pieces ==> Label(piece)
  }

  /** At most 253 characters that split on dots into labels. */
  ghost predicate DomainName(s: string) {
    s != "" && |Relative(s)| <= 253 && AllLabels(Split(Relative(s), '.'))
  }

  /** What the loop still accepts, with `part` the label read so far. */
  predicate Accepts(part: string, rest: string)
    decreases |rest|
  {
    var last := if part == "" then '.' else part[|part| - 1];
    if rest == "" then last != '-' && |part| <= 63
    else if Letter(rest[0]) then Accepts(part + [rest[0]], rest[1..])
    else if rest[0] == '-' then last != '.' && Accepts(part + [rest[0]], rest[1..])
    else rest[0] == '.' && last != '.' && last != '-' && 0 < |part| <= 63 && Accepts("", rest[1..])
  }

  /** `is_domain_name`. */
  method IsDomainName(s: string) returns (r: bool)
    ensures r <==> DomainName(s)
  {
    LoopIsDomainName(s);
    var l := |s|;
    if l == 0 || l > 254 || (l == 254 && s[l - 1] != '.') {
      return false;
    }
    var last, partLen := '.', 0;
    ghost var part := "";
    for i := 0 to l
      invariant Accepts("", s) == Accepts(part, s[i..])
      invariant partLen == |part| && last == if part == "" then '.' else part[|part| - 1]
      invariant '.' !in part
    {
      var c := s[i];
      assert s[i..][0] == c && s[i..][1..] == s[i + 1..];
      if Letter(c) {
        partLen, part := partLen + 1, part + [c];
      } else if c == '-' {
        if last == '.' {
          return false;
        }
        partLen, part := partLen + 1, part + [c];
      } else if c == '.' {
        if last == '.' || last == '-' || partLen > 63 || partLen == 0 {
          return false;
        }
        partLen, part := 0, "";
      } else {
        return false;
      }
      last := c;
    }
    return last != '-' && partLen <= 63;
  }

  /** Labels up to the end or to a trailing dot. */
  ghost predicate Labels(t: string)
    decreases |t|
  {
    t == "" || (var i := IndexOf(t, '.'); Label(t[..i]) && (i == |t| || Labels(t[i + 1..])))
  }

  /** A label read so far: no dash in front, no other characters than a label's. */
  predicate Part(part: string) {
    part == "" || (part[0] != '-' && forall i :: 0 <= i < |part| ==> Letter(part[i]) || part[i] == '-')
  }

  lemma {:induction false} AcceptsIsLabels(part: string, rest: string)
    requires Part(part)
    ensures Accepts(part, rest) <==> Labels(part + rest)
    decreases |rest|
  {
    if rest == "" {
      PartIsLabel(part);
      assert part + rest == part;
    } else {
      var c, tail := rest[0], rest[1..];
      assert rest == [c] + tail;
      assert part + rest == part + [c] + tail;
      if c == '-' && part == "" {
        DashedLabel(part + rest);
      } else if Letter(c) || c == '-' {
        AcceptsIsLabels(part + [c], tail);
      } else if c == '.' {
        AcceptsIsLabels("", tail);
        assert "" + tail == tail;
        PartIsLabel(part);
        LabelsCons(part, tail);
      } else {
        StrayCharacter(part, c, tail);
      }
    }
  }

  /** A part that ends here is a label, or nothing. */
  lemma PartIsLabel(part: string)
    requires Part(part)
    ensures '.' !in part
    ensures Labels(part) <==> part == "" || (part[|part| - 1] != '-' && |part| <= 63)
    ensures Label(part) <==> part != "" && part[|part| - 1] != '-' && |part| <= 63
  {
    assert part[..|part|] == part;
  }

  lemma LabelsCons(part: string, rest: string)
    requires '.' !in part
    ensures Labels(part + ['.'] + rest) <==> Label(part) && Labels(rest)
  {
    var t := part + ['.'] + rest;
    IndexOfConcat(part, '.', rest);
    assert t[..|part|] == part && t[|part| + 1..] == rest;
  }

  lemma StrayCharacter(part: string, c: char, rest: string)
    requires '.' !in part && !Letter(c) && c != '-' && c != '.'
    ensures !Labels(part + [c] + rest)
  {
    var t := part + [c] + rest;
    var i := IndexOf(t, '.');
    assert t[|part|] == c && t[..|part|] == part;
    assert i > |part|;
    assert t[..i][|part|] == c;
  }

  lemma DashedLabel(t: string)
    requires t != "" && t[0] == '-'
    ensures !Labels(t)
  {
    var i := IndexOf(t, '.');
    assert i > 0 && t[..i][0] == '-';
  }

  lemma AllLabelsCons(head: string, tail: seq<string>)
    ensures AllLabels([head] + tail) <==> Label(head) && AllLabels(tail)
  {
    assert forall piece :: piece in [head] + tail <==> piece == head || piece in tail;
  }

  lemma RelativeCons(head: string, rest: string)
    requires rest != ""
    ensures Relative(head + ['.'] + rest) == head + ['.'] + Relative(rest)
  {
    var s := head + ['.'] + rest;
    assert s[|s| - 1] == rest[|rest| - 1];
  }

  lemma {:induction false} LabelsSplit(t: string)
    requires t != ""
    ensures Labels(t) <==> AllLabels(Split(Relative(t), '.'))
    decreases |t|
  {
    var i := IndexOf(t, '.');
    if i == |t| {
      assert t[..i] == t && Relative(t) == t;
      SplitSingle(t, '.');
    } else {
      var head, rest := t[..i], t[i + 1..];
      assert t == head + ['.'] + rest;
      if rest == "" {
        assert Relative(t) == head;
        SplitSingle(head, '.');
      } else {
        LabelsSplit(rest);
        RelativeCons(head, rest);
        SplitCons(head, '.', Relative(rest));
        AllLabelsCons(head, Split(Relative(rest), '.'));
      }
    }
  }

  /** The loop accepts exactly the DNS names. */
  lemma {:induction false} LoopIsDomainName(s: string)
    ensures (s != "" && |s| <= 254 && (|s| == 254 ==> s[253] == '.') && Accepts("", s)) <==> DomainName(s)
  {
    if s != "" {
      RelativeFits(s);
      AcceptsSplits(s);
    }
  }

  lemma RelativeFits(s: string)
    requires s != ""
    ensures |Relative(s)| <= 253 <==> |s| <= 254 && (|s| == 254 ==> s[253] == '.')
  {}

  lemma AcceptsSplits(s: string)
    requires s != ""
    ensures Accepts("", s) <==> AllLabels(Split(Relative(s), '.'))
  {
    AcceptsIsLabels("", s);
    assert "" + s == s;
    LabelsSplit(s);
  }
}

/** Resource-name patterns: parsing, matching and formatting. */
module Patterns {
  import opened Wrappers
  import opened Text
  import opened Scanning

  datatype PatternSegment = Literal(text: string) | Variable(name: string) {
    function Render(): string {
      match this
      case Literal(text) => text
      case Variable(name) => "{" + name + "}"
    }
  }

  datatype Error =
    | InvalidPattern
    | PatternMismatch
    | MissingVariable(name: string)
    | UnknownVariable(name: string)

  const WILDCARD := "-"

  /** The name inside a brace-wrapped segment, possibly empty. */
  function VariableName(segment: string): Option<string> {
    if |segment| >= 2 && segment[0] == '{' && segment[|segment| - 1] == '}' then Some(segment[1..|segment| - 1])
    else None
  }

  function ParseSegment(raw: string, seen: set<string>): Option<PatternSegment> {
    if raw == "" || raw == WILDCARD then None
    else
      match VariableName(raw)
      case Some(name) => if name == "" || name in seen then None else Some(Variable(name))
      case None => if '{' in raw || '}' in raw then None else Some(Literal(raw))
  }

  function Seen(seen: set<string>, segment: PatternSegment): set<string> {
    if segment.Variable? then seen + {segment.name} else seen
  }

  function ParseSegments(raws: seq<string>, seen: set<string>): (r: Option<seq<PatternSegment>>)
    ensures r.Some? ==> |r.value| == |raws|
    decreases |raws|
  {
    if raws == [] then Some([])
    else
      var first := ParseSegment(raws[0], seen);
      if first.None? then None
      else
        var rest := ParseSegments(raws[1..], Seen(seen, first.value));
        if rest.None? then None else Some([first.value] + rest.value)
  }

  /** Without one leading slash. */
  function PatternBody(pattern: string): string {
    if pattern != "" && pattern[0] == '/' then pattern[1..] else pattern
  }

  function Parse(pattern: string): Option<seq<PatternSegment>> {
    if Full(pattern) || PatternBody(pattern) == "" then None
    else ParseSegments(Split(PatternBody(pattern), '/'), {})
  }

  method ParsePattern(pattern: string) returns (r: Option<seq<PatternSegment>>)
    ensures r == Parse(pattern)
  {
    if Full(pattern) {
      return None;
    }
    var body := PatternBody(pattern);
    if body == "" {
      return None;
    }
    var raws := Split(body, '/');
    var segments: seq<PatternSegment> := [];
    var seen: set<string> := {};
    assert raws[0..] == raws;
    PrependNothing(ParseSegments(raws, {}));
    for i := 0 to |raws|
      invariant ParseSegments(raws, {}) == Prepend(segments, ParseSegments(raws[i..], seen))
    {
      assert raws[i..][0] == raws[i] && raws[i..][1..] == raws[i + 1..];
      var segment := ParseSegment(raws[i], seen);
      if segment.None? {
        return None;
      }
      PrependOne(segments, segment.value, ParseSegments(raws[i + 1..], Seen(seen, segment.value)));
      segments := segments + [segment.value];
      seen := Seen(seen, segment.value);
    }
    assert raws[|raws|..] == [] && segments + [] == segments;
    return Some(segments);
  }

  function Prepend(done: seq<PatternSegment>, rest: Option<seq<PatternSegment>>): Option<seq<PatternSegment>> {
    if rest.Some? then Some(done + rest.value) else None
  }

  lemma PrependNothing(rest: Option<seq<PatternSegment>>)
    ensures Prepend([], rest) == rest
  {
    if rest.Some? {
      assert [] + rest.value == rest.value;
    }
  }

  lemma PrependOne(done: seq<PatternSegment>, one: PatternSegment, rest: Option<seq<PatternSegment>>)
    ensures Prepend(done, Prepend([one], rest)) == Prepend(done + [one], rest)
  {
    if rest.Some? {
      assert done + ([one] + rest.value) == done + [one] + rest.value;
    }
  }

  function Rendered(segments: seq<PatternSegment>): (r: seq<string>)
    ensures |r| == |segments|
  {
    if segments == [] then [] else [segments[0].Render()] + Rendered(segments[1..])
  }

  function Render(segments: seq<PatternSegment>): string {
    Join(Rendered(segments), '/')
  }

  // ----- matching -----

  /** One segment of a concrete name against one of the pattern. */
  predicate MatchesSegment(pattern: PatternSegment, segment: string) {
    VariableName(segment).None? && (if pattern.Literal? then pattern.text == segment else segment != "")
  }

  predicate MatchesAll(pattern: seq<PatternSegment>, segments: seq<string>) {
    |pattern| == |segments| && forall i :: 0 <= i < |pattern| ==> MatchesSegment(pattern[i], segments[i])
  }

  /** What the variables bind, later positions last. */
  function Bound(pattern: seq<PatternSegment>, segments: seq<string>): map<string, string>
    requires |pattern| == |segments|
  {
    if pattern == [] then map[]
    else
      var n := |pattern| - 1;
      var before := Bound(pattern[..n], segments[..n]);
      if pattern[n].Variable? then before[pattern[n].name := segments[n]] else before
  }

  function Match(pattern: seq<PatternSegment>, name: string): Option<map<string, string>> {
    var segments := Segments(name);
    if MatchesAll(pattern, segments) then Some(Bound(pattern, segments)) else None
  }

  method MatchName(pattern: seq<PatternSegment>, name: string) returns (r: Option<map<string, string>>)
    ensures r == Match(pattern, name)
  {
    var segments := NameSegments(name);
    if |segments| != |pattern| {
      return None;
    }
    var vars: map<string, string> := map[];
    for i := 0 to |pattern|
      invariant MatchesAll(pattern[..i], segments[..i]) && vars == Bound(pattern[..i], segments[..i])
    {
      if !MatchesSegment(pattern[i], segments[i]) {
        return None;
      }
      assert pattern[..i + 1][..i] == pattern[..i] && segments[..i + 1][..i] == segments[..i];
      if pattern[i].Variable? {
        vars := vars[pattern[i].name := segments[i]];
      }
    }
    assert pattern[..|pattern|] == pattern && segments[..|pattern|] == segments;
    return Some(vars);
  }

  /** A wildcard binds nothing, any other segment itself. */
  function Wild(value: string): Option<string> {
    if value == WILDCARD then None else Some(value)
  }

  function WildBound(pattern: seq<PatternSegment>, segments: seq<string>): map<string, Option<string>>
    requires |pattern| == |segments|
  {
    if pattern == [] then map[]
    else
      var n := |pattern| - 1;
      var before := WildBound(pattern[..n], segments[..n]);
      if pattern[n].Variable? then before[pattern[n].name := Wild(segments[n])] else before
  }

  method MatchWithWildcards(pattern: seq<PatternSegment>, name: string) returns (r: Option<map<string, Option<string>>>)
    ensures r.Some? <==> Match(pattern, name).Some?
    ensures r.Some? ==> r.value.Keys == Match(pattern, name).value.Keys
                        && forall v :: v in r.value ==> r.value[v] == Wild(Match(pattern, name).value[v])
  {
    var segments := NameSegments(name);
    if |segments| != |pattern| {
      return None;
    }
    var vars: map<string, Option<string>> := map[];
    for i := 0 to |pattern|
      invariant MatchesAll(pattern[..i], segments[..i]) && vars == WildBound(pattern[..i], segments[..i])
    {
      if VariableName(segments[i]).Some? {
        return None;
      }
      assert pattern[..i + 1][..i] == pattern[..i] && segments[..i + 1][..i] == segments[..i];
      if pattern[i].Literal? {
        if pattern[i].text != segments[i] {
          return None;
        }
      } else if segments[i] == WILDCARD {
        vars := vars[pattern[i].name := None];
      } else if segments[i] == "" {
        return None;
      } else {
        vars := vars[pattern[i].name := Some(segments[i])];
      }
    }
    assert pattern[..|pattern|] == pattern && segments[..|pattern|] == segments;
    WildIsBound(pattern, segments);
    return Some(vars);
  }

  lemma {:induction false} WildIsBound(pattern: seq<PatternSegment>, segments: seq<string>)
    requires |pattern| == |segments|
    ensures WildBound(pattern, segments).Keys == Bound(pattern, segments).Keys
    ensures forall v :: v in Bound(pattern, segments) ==>
              WildBound(pattern, segments)[v] == Wild(Bound(pattern, segments)[v])
  {
    if pattern != [] {
      var n := |pattern| - 1;
      WildIsBound(pattern[..n], segments[..n]);
    }
  }

  // ----- formatting -----

  predicate Declares(pattern: seq<PatternSegment>, name: string) {
    exists i :: 0 <= i < |pattern| && pattern[i] == Variable(name)
  }

  /** The value each segment is replaced with. */
  function Values(pattern: seq<PatternSegment>, vars: map<string, string>): (r: Result<seq<string>, Error>)
    ensures r.Ok? ==> |r.value| == |pattern|
    decreases |pattern|
  {
    if pattern == [] then Ok([])
    else
      var first: string :- (match pattern[0]
                            case Literal(text) => Ok(text)
                            case Variable(name) => if name in vars then Ok(vars[name]) else Err(MissingVariable(name)));
      var rest :- Values(pattern[1..], vars);
      Ok([first] + rest)
  }

  /** The values joined by slashes, when exactly the declared variables are given. */
  ghost predicate Formats(pattern: seq<PatternSegment>, vars: map<string, string>, r: Result<string, Error>) {
    if exists name :: name in vars && !Declares(pattern, name) then
      r.Err? && r.error.UnknownVariable? && r.error.name in vars && !Declares(pattern, r.error.name)
      && forall name :: name in vars && Less(name, r.error.name) ==> Declares(pattern, name)
    else
      match Values(pattern, vars)
      case Err(error) => r == Err(error)
      case Ok(values) => r == Ok(Join(values, '/'))
  }

  /** Some name comes first. */
  lemma {:induction false} LeastOf(names: set<string>)
    requires names != {}
    ensures exists name :: name in names && forall other :: other in names ==> other == name || Less(name, other)
    decreases |names|
  {
    var some :| some in names;
    var rest := names - {some};
    if rest != {} {
      LeastOf(rest);
      var least :| least in rest && forall other :: other in rest ==> other == least || Less(least, other);
      LessTotal(some, least);
      if Less(some, least) {
        forall other | other in names ensures other == some || Less(some, other) {
          if other in rest && other != least {
            LessTransitive(some, least, other);
          }
        }
      } else {
        assert forall other :: other in names ==> other == least || Less(least, other);
      }
    }
  }

  method Format(pattern: seq<PatternSegment>, vars: map<string, string>) returns (r: Result<string, Error>)
    ensures Formats(pattern, vars, r)
  {
    var unchecked := vars.Keys;
    while unchecked != {}
      invariant unchecked <= vars.Keys
      invariant forall name :: name in vars && name !in unchecked ==> Declares(pattern, name)
      decreases |unchecked|
    {
      LeastOf(unchecked);
      var name :| name in unchecked && forall other :: other in unchecked ==> other == name || Less(name, other);
      if !Declares(pattern, name) {
        forall other | other in vars && Less(other, name) ensures Declares(pattern, other) {
          LessTotal(other, name);
        }
        return Err(UnknownVariable(name));
      }
      unchecked := unchecked - {name};
    }
    var out := "";
    assert pattern[0..] == pattern;
    for i := 0 to |pattern|
      invariant Values(pattern, vars).Err? <==> Values(pattern[i..], vars).Err?
      invariant Values(pattern, vars).Err? ==> Values(pattern, vars) == Values(pattern[i..], vars)
      invariant Values(pattern, vars).Ok? ==>
                  Values(pattern[i..], vars).value == Values(pattern, vars).value[i..]
                  && out == Join(Values(pattern, vars).value[..i], '/')
    {
      assert pattern[i..][0] == pattern[i] && pattern[i..][1..] == pattern[i + 1..];
      if pattern[i].Variable? && pattern[i].name !in vars {
        return Err(MissingVariable(pattern[i].name));
      }
      var value := if pattern[i].Literal? then pattern[i].text else vars[pattern[i].name];
      if Values(pattern, vars).Ok? {
        ValuesAt(pattern, vars, i, value);
        JoinSnoc(Values(pattern, vars).value[..i], '/', value);
      }
      if i > 0 {
        out := out + ['/'];
      }
      out := out + value;
    }
    assert pattern[|pattern|..] == [];
    if Values(pattern, vars).Ok? {
      assert Values(pattern, vars).value[..|pattern|] == Values(pattern, vars).value;
    }
    return Ok(out);
  }

  lemma ValuesAt(pattern: seq<PatternSegment>, vars: map<string, string>, i: nat, value: string)
    requires i < |pattern| && Values(pattern, vars).Ok? && Values(pattern[i..], vars).Ok?
    requires Values(pattern[i..], vars).value == Values(pattern, vars).value[i..]
    requires pattern[i].Variable? ==> pattern[i].name in vars
    requires value == if pattern[i].Literal? then pattern[i].text else vars[pattern[i].name]
    ensures Values(pattern, vars).value[i] == value
    ensures Values(pattern[i + 1..], vars).Ok?
    ensures Values(pattern[i + 1..], vars).value == Values(pattern, vars).value[i + 1..]
    ensures Values(pattern, vars).value[..i + 1] == Values(pattern, vars).value[..i] + [value]
  {
    assert pattern[i..][0] == pattern[i] && pattern[i..][1..] == pattern[i + 1..];
    var rest := Values(pattern[i..], vars).value;
    assert rest[0] == value && rest[1..] == Values(pattern[i + 1..], vars).value;
  }

  // ----- patterns render back -----

  /** What parsing guarantees of a pattern. */
  ghost predicate WellFormed(pattern: seq<PatternSegment>) {
    pattern != []
    && (forall i :: 0 <= i < |pattern| ==> GoodSegment(pattern[i]))
    && forall i, j :: 0 <= i < j < |pattern| && pattern[i].Variable? ==> pattern[i] != pattern[j]
  }

  predicate GoodSegment(segment: PatternSegment) {
    match segment
    case Literal(text) => text != "" && text != WILDCARD && '/' !in text && '{' !in text && '}' !in text
    case Variable(name) => name != "" && '/' !in name
  }

  lemma ParsedSegment(raw: string, seen: set<string>)
    requires '/' !in raw && ParseSegment(raw, seen).Some?
    ensures var segment := ParseSegment(raw, seen).value;
            GoodSegment(segment) && segment.Render() == raw && (segment.Variable? ==> segment.name !in seen)
  {
    if VariableName(raw).Some? {
      assert raw == "{" + raw[1..|raw| - 1] + "}";
    }
  }

  /** Parsed segments render back to the raw ones; no variable repeats or was seen before. */
  lemma {:induction false} ParsedSegments(raws: seq<string>, seen: set<string>)
    requires Free(raws, '/') && ParseSegments(raws, seen).Some?
    ensures var segments := ParseSegments(raws, seen).value;
            Rendered(segments) == raws
            && (forall i :: 0 <= i < |segments| ==>
                  GoodSegment(segments[i]) && (segments[i].Variable? ==> segments[i].name !in seen))
            && forall i, j :: 0 <= i < j < |segments| && segments[i].Variable? ==> segments[i] != segments[j]
    decreases |raws|
  {
    if raws != [] {
      var first := ParseSegment(raws[0], seen).value;
      ParsedSegment(raws[0], seen);
      ParsedSegments(raws[1..], Seen(seen, first));
      var rest := ParseSegments(raws[1..], Seen(seen, first)).value;
      var segments := ParseSegments(raws, seen).value;
      assert segments[1..] == rest && raws == [raws[0]] + raws[1..];
      assert forall j :: 0 < j < |segments| ==> segments[j] == rest[j - 1];
    }
  }

  /** A parsed pattern is well formed and renders to what it was parsed from, without the
      leading slash it tolerates. */
  lemma RenderOfParse(pattern: string)
    requires Parse(pattern).Some?
    ensures WellFormed(Parse(pattern).value) && Render(Parse(pattern).value) == PatternBody(pattern)
  {
    var body := PatternBody(pattern);
    JoinOfSplit(body, '/');
    ParsedSegments(Split(body, '/'), {});
  }

  lemma GoodSegmentParses(segment: PatternSegment, seen: set<string>)
    requires GoodSegment(segment) && (segment.Variable? ==> segment.name !in seen)
    ensures '/' !in segment.Render() && ParseSegment(segment.Render(), seen) == Some(segment)
  {
    if segment.Variable? {
      var raw := segment.Render();
      assert raw[1..|raw| - 1] == segment.name;
    } else {
      assert segment.text[0] in segment.text;
    }
  }

  lemma {:induction false} GoodSegmentsParse(pattern: seq<PatternSegment>, seen: set<string>)
    requires forall i :: 0 <= i < |pattern| ==>
               GoodSegment(pattern[i]) && (pattern[i].Variable? ==> pattern[i].name !in seen)
    requires forall i, j :: 0 <= i < j < |pattern| && pattern[i].Variable? ==> pattern[i] != pattern[j]
    ensures Free(Rendered(pattern), '/') && ParseSegments(Rendered(pattern), seen) == Some(pattern)
    decreases |pattern|
  {
    if pattern != [] {
      GoodSegmentParses(pattern[0], seen);
      GoodSegmentsParse(pattern[1..], Seen(seen, pattern[0]));
      assert pattern == [pattern[0]] + pattern[1..];
      assert Rendered(pattern)[1..] == Rendered(pattern[1..]);
    }
  }

  lemma JoinStarts(parts: seq<string>)
    requires parts != [] && parts[0] != "" && '/' !in parts[0]
    ensures Join(parts, '/') != "" && Join(parts, '/')[0] == parts[0][0] != '/'
  {
    assert parts[0][0] in parts[0];
  }

  /** Rendering a well-formed pattern and parsing it again gives it back. */
  lemma ParseOfRender(pattern: seq<PatternSegment>)
    requires WellFormed(pattern)
    ensures Parse(Render(pattern)) == Some(pattern)
  {
    GoodSegmentsParse(pattern, {});
    var parts := Rendered(pattern);
    assert parts[0] == pattern[0].Render() && parts[0] in parts;
    JoinStarts(parts);
    SplitOfJoin(parts, '/');
  }

  // ----- matching and formatting undo each other -----

  /** A value that can stand as one concrete segment. */
  predicate Plain(value: string) {
    value != "" && '/' !in value && VariableName(value).None?
  }

  lemma {:induction false} BoundAt(pattern: seq<PatternSegment>, segments: seq<string>)
    requires |pattern| == |segments|
    requires forall i, j :: 0 <= i < j < |pattern| && pattern[i].Variable? ==> pattern[i] != pattern[j]
    ensures forall i :: 0 <= i < |pattern| && pattern[i].Variable? ==>
              pattern[i].name in Bound(pattern, segments) && Bound(pattern, segments)[pattern[i].name] == segments[i]
    ensures forall name :: name in Bound(pattern, segments) ==>
              exists i :: 0 <= i < |pattern| && pattern[i] == Variable(name)
  {
    if pattern != [] {
      var n := |pattern| - 1;
      BoundAt(pattern[..n], segments[..n]);
      var before := Bound(pattern[..n], segments[..n]);
      forall i | 0 <= i < n && pattern[i].Variable?
        ensures pattern[i].name in Bound(pattern, segments) && Bound(pattern, segments)[pattern[i].name] == segments[i]
      {
        assert pattern[..n][i] == pattern[i] && segments[..n][i] == segments[i];
        assert pattern[i] != pattern[n];
      }
      forall name | name in Bound(pattern, segments) ensures exists i :: 0 <= i < |pattern| && pattern[i] == Variable(name) {
        if name in before {
          var i :| 0 <= i < n && pattern[..n][i] == Variable(name);
          assert pattern[i] == Variable(name);
        } else {
          assert pattern[n] == Variable(name);
        }
      }
    }
  }

  /** With the captures of a match every segment is its own value. */
  lemma {:induction false} ValuesOfCaptures(pattern: seq<PatternSegment>, segments: seq<string>, vars: map<string, string>)
    requires MatchesAll(pattern, segments)
    requires forall i :: 0 <= i < |pattern| && pattern[i].Variable? ==>
               pattern[i].name in vars && vars[pattern[i].name] == segments[i]
    ensures Values(pattern, vars) == Ok(segments)
    decreases |pattern|
  {
    if pattern != [] {
      assert MatchesSegment(pattern[0], segments[0]);
      forall i | 0 <= i < |pattern| - 1 ensures MatchesSegment(pattern[1..][i], segments[1..][i]) {
        assert MatchesSegment(pattern[i + 1], segments[i + 1]);
      }
      ValuesOfCaptures(pattern[1..], segments[1..], vars);
      assert segments == [segments[0]] + segments[1..];
    }
  }

  /** Formatting the captures of a matched name gives the name back, without any service
      prefix or leading slash. */
  lemma FormatOfMatch(pattern: seq<PatternSegment>, name: string, r: Result<string, Error>)
    requires WellFormed(pattern) && Match(pattern, name).Some?
    requires Formats(pattern, Match(pattern, name).value, r)
    ensures Body(name).Some? && r == Ok(Body(name).value)
  {
    var segments, vars := Segments(name), Match(pattern, name).value;
    BoundAt(pattern, segments);
    forall v | v in vars ensures Declares(pattern, v) {
      var i :| 0 <= i < |pattern| && pattern[i] == Variable(v);
    }
    ValuesOfCaptures(pattern, segments, vars);
    JoinOfSplit(Body(name).value, '/');
  }

  lemma {:induction false} ValuesAre(pattern: seq<PatternSegment>, vars: map<string, string>, i: nat)
    requires Values(pattern, vars).Ok? && i < |pattern|
    ensures pattern[i].Variable? ==> pattern[i].name in vars
    ensures Values(pattern, vars).value[i] == if pattern[i].Literal? then pattern[i].text else vars[pattern[i].name]
    decreases |pattern|
  {
    if i > 0 {
      ValuesAre(pattern[1..], vars, i - 1);
    }
  }

  /** Plain values join to a name whose segments they are, and that the pattern matches. */
  lemma PlainValuesMatch(pattern: seq<PatternSegment>, vars: map<string, string>)
    requires WellFormed(pattern) && Values(pattern, vars).Ok?
    requires forall v :: v in vars ==> Plain(vars[v])
    ensures var values := Values(pattern, vars).value;
            Segments(Join(values, '/')) == values && MatchesAll(pattern, values)
  {
    var values := Values(pattern, vars).value;
    forall i | 0 <= i < |pattern| ensures MatchesSegment(pattern[i], values[i]) && values[i] != "" && '/' !in values[i] {
      ValuesAre(pattern, vars, i);
      assert GoodSegment(pattern[i]);
      if pattern[i].Literal? {
        assert pattern[i].text[0] in pattern[i].text;
      }
    }
    forall value | value in values ensures '/' !in value {
      var i :| 0 <= i < |values| && values[i] == value;
    }
    JoinStarts(values);
    SplitOfJoin(values, '/');
    var name := Join(values, '/');
    assert name[0..] == name;
  }

  /** The values of exactly the declared variables are bound back to them. */
  lemma BoundIsVars(pattern: seq<PatternSegment>, vars: map<string, string>)
    requires WellFormed(pattern) && Values(pattern, vars).Ok? && forall v :: v in vars ==> Declares(pattern, v)
    ensures Bound(pattern, Values(pattern, vars).value) == vars
  {
    var values := Values(pattern, vars).value;
    BoundAt(pattern, values);
    var bound := Bound(pattern, values);
    forall v | v in vars ensures v in bound && bound[v] == vars[v] {
      var i :| 0 <= i < |pattern| && pattern[i] == Variable(v);
      ValuesAre(pattern, vars, i);
    }
    forall v | v in bound ensures v in vars {
      var i :| 0 <= i < |pattern| && pattern[i] == Variable(v);
      ValuesAre(pattern, vars, i);
    }
    assert bound.Keys == vars.Keys;
  }

  /** Matching a formatted name gives the values back exactly when each of them is non-empty,
      free of slashes and not wrapped in braces. */
  lemma MatchOfFormatExactly(pattern: seq<PatternSegment>, vars: map<string, string>, text: string)
    requires WellFormed(pattern) && Formats(pattern, vars, Ok(text))
    ensures Match(pattern, text) == Some(vars) <==> forall v :: v in vars ==> Plain(vars[v])
  {
    if forall v :: v in vars ==> Plain(vars[v]) {
      PlainValuesMatch(pattern, vars);
      BoundIsVars(pattern, vars);
    }
    if Match(pattern, text) == Some(vars) {
      CapturesArePlain(pattern, text);
    }
  }

  /** Whatever a match binds is a plain value. */
  lemma CapturesArePlain(pattern: seq<PatternSegment>, name: string)
    requires WellFormed(pattern) && Match(pattern, name).Some?
    ensures forall v :: v in Match(pattern, name).value ==> Plain(Match(pattern, name).value[v])
  {
    var segments := Segments(name);
    BoundAt(pattern, segments);
    JoinOfSplit(Body(name).value, '/');
    forall v | v in Match(pattern, name).value ensures Plain(Match(pattern, name).value[v]) {
      var i :| 0 <= i < |pattern| && pattern[i] == Variable(v);
      assert MatchesSegment(pattern[i], segments[i]) && segments[i] in segments;
    }
  }
}
