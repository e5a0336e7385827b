/** Applying an update mask to a message tree. */
module FieldMasks {
  import opened Wrappers
  import opened Text
  import opened Messages
  import opened DeclarationsBuilding

  const WILDCARD_PATH := "*"

  datatype MaskError = UnknownPath(path: string) | WildcardNotAlone | TypeMismatch

  /** Every singular message field of the pool has a descriptor in it. */
  ghost predicate Closed(pool: Pool) {
    forall name :: name in pool ==> ClosedFields(pool, pool[name])
  }

  ghost predicate ClosedFields(pool: Pool, descriptor: Descriptor) {
    forall name :: name in descriptor.fields && descriptor.fields[name].kind.Message? ==>
      descriptor.fields[name].kind.fullName in pool
  }

  /** The message and everything below it are of the pool's types. */
  ghost predicate WellTyped(pool: Pool, message: Message)
    decreases message
  {
    ClosedFields(pool, message.descriptor)
    && forall name :: name in message.values ==>
         name in message.descriptor.fields
         && (message.descriptor.fields[name].SingularMessage() ==>
               message.values[name].Msg?
               && message.values[name].message.descriptor == pool[message.descriptor.fields[name].kind.fullName]
               && WellTyped(pool, message.values[name].message))
  }

  /** The submessage a singular message field holds, an empty one when it is unset. */
  function Sub(pool: Pool, message: Message, name: string): Message
    requires name in message.descriptor.fields && message.descriptor.fields[name].SingularMessage()
    requires message.descriptor.fields[name].kind.fullName in pool
    requires name in message.values ==> message.values[name].Msg?
  {
    if name in message.values then message.values[name].message
    else Message.Message(pool[message.descriptor.fields[name].kind.fullName], map[])
  }

  lemma SubIsTyped(pool: Pool, message: Message, name: string)
    requires Closed(pool) && WellTyped(pool, message)
    requires name in message.descriptor.fields && message.descriptor.fields[name].SingularMessage()
    ensures WellTyped(pool, Sub(pool, message, name))
    ensures Sub(pool, message, name).descriptor == pool[message.descriptor.fields[name].kind.fullName]
  {}

  // ----- reading -----

  function DefaultIn(pool: Pool, field: Field): Value
    requires field.SingularMessage() ==> field.kind.fullName in pool
  {
    if field.SingularMessage() then Msg(Message.Message(pool[field.kind.fullName], map[])) else Default(field)
  }

  /** What a path reads, with defaults for everything unset; none when it names no field. */
  ghost function Read(pool: Pool, message: Message, path: seq<string>): Option<Value>
    requires Closed(pool) && WellTyped(pool, message)
    decreases |path|
  {
    if path == [] || path[0] !in message.descriptor.fields then None
    else
      var name, field := path[0], message.descriptor.fields[path[0]];
      if |path| == 1 then Some(if name in message.values then message.values[name] else DefaultIn(pool, field))
      else if !field.SingularMessage() then None
      else
        SubIsTyped(pool, message, name);
        Read(pool, Sub(pool, message, name), path[1..])
  }

  /** The path is set, and so is everything above it. */
  ghost predicate HasAt(pool: Pool, message: Message, path: seq<string>)
    requires Closed(pool) && WellTyped(pool, message)
    decreases |path|
  {
    path != [] && path[0] in message.values
    && (|path| == 1
        || (message.descriptor.fields[path[0]].SingularMessage()
            && HasAt(pool, message.values[path[0]].message, path[1..])))
  }

  /** A field path that does not end in a singular message. */
  predicate Leaf(pool: Pool, descriptor: Descriptor, path: seq<string>) {
    var field := FieldAt(pool, descriptor, path);
    field.Some? && !field.value.SingularMessage()
  }

  // ----- one path -----

  function Set(message: Message, name: string, value: Value): Message {
    message.(values := message.values[name := value])
  }

  function Clear(message: Message, name: string): Message {
    message.(values := message.values - {name})
  }

  /** `update_named_field`: an interior path allocates the submessage it descends into. */
  function UpdateNamed(pool: Pool, dst: Message, src: Message, path: seq<string>): (r: Message)
    requires Closed(pool) && WellTyped(pool, dst) && WellTyped(pool, src) && dst.descriptor == src.descriptor
    ensures WellTyped(pool, r) && r.descriptor == dst.descriptor
    decreases |path|
  {
    if path == [] || path[0] !in src.descriptor.fields then dst
    else
      var name, field := path[0], src.descriptor.fields[path[0]];
      if |path| == 1 then if src.Has(name) then Set(dst, name, src.values[name]) else Clear(dst, name)
      else if !field.cardinality.Singular? then dst
      else if field.kind.Message? then
        SubIsTyped(pool, dst, name);
        SubIsTyped(pool, src, name);
        Set(dst, name, Msg(UpdateNamed(pool, Sub(pool, dst, name), Sub(pool, src, name), path[1..])))
      else dst
  }

  /** A read depends on nothing but the field it starts in. */
  lemma ReadsAlike(pool: Pool, a: Message, b: Message, q: seq<string>)
    requires Closed(pool) && WellTyped(pool, a) && WellTyped(pool, b) && a.descriptor == b.descriptor
    requires q != [] && (q[0] in a.values <==> q[0] in b.values)
    requires q[0] in a.values ==> a.values[q[0]] == b.values[q[0]]
    ensures Read(pool, a, q) == Read(pool, b, q)
  {}

  /** One path changes exactly the leaves below it, to what the source reads there. */
  lemma {:induction false} NamedReads(pool: Pool, dst: Message, src: Message, p: seq<string>, q: seq<string>)
    requires Closed(pool) && WellTyped(pool, dst) && WellTyped(pool, src) && dst.descriptor == src.descriptor
    requires p != [] && Leaf(pool, dst.descriptor, q)
    ensures Read(pool, UpdateNamed(pool, dst, src, p), q) == if p <= q then Read(pool, src, q) else Read(pool, dst, q)
    decreases |p|
  {
    var r := UpdateNamed(pool, dst, src, p);
    if p[0] != q[0] || p[0] !in dst.descriptor.fields {
      ReadsAlike(pool, r, dst, q);
    } else if |p| == 1 {
      ReadsAlike(pool, r, src, q);
    } else if |q| > 1 {
      var name := p[0];
      SubIsTyped(pool, dst, name);
      SubIsTyped(pool, src, name);
      NamedReads(pool, Sub(pool, dst, name), Sub(pool, src, name), p[1..], q[1..]);
      assert p <= q <==> p[1..] <= q[1..];
    }
  }

  // ----- a whole mask -----

  function UpdateAll(pool: Pool, dst: Message, src: Message, paths: seq<string>): (r: Message)
    requires Closed(pool) && WellTyped(pool, dst) && WellTyped(pool, src) && dst.descriptor == src.descriptor
    ensures WellTyped(pool, r) && r.descriptor == dst.descriptor
    decreases |paths|
  {
    if paths == [] then dst
    else UpdateAll(pool, UpdateNamed(pool, dst, src, Split(paths[0], '.')), src, paths[1..])
  }

  ghost predicate Masked(paths: seq<string>, q: seq<string>) {
    exists path :: path in paths && Split(path, '.') <= q
  }

  /** A mask changes exactly the leaves under its paths, to what the source reads there. */
  lemma {:induction false} MaskReads(pool: Pool, dst: Message, src: Message, paths: seq<string>, q: seq<string>)
    requires Closed(pool) && WellTyped(pool, dst) && WellTyped(pool, src) && dst.descriptor == src.descriptor
    requires Leaf(pool, dst.descriptor, q)
    ensures Read(pool, UpdateAll(pool, dst, src, paths), q)
            == if Masked(paths, q) then Read(pool, src, q) else Read(pool, dst, q)
    decreases |paths|
  {
    if paths != [] {
      var p := Split(paths[0], '.');
      NamedReads(pool, dst, src, p, q);
      MaskReads(pool, UpdateNamed(pool, dst, src, p), src, paths[1..], q);
      assert Masked(paths, q) <==> p <= q || Masked(paths[1..], q) by {
        assert paths == [paths[0]] + paths[1..];
      }
    }
  }

  /** Every leaf reads alike. */
  ghost predicate SameReads(pool: Pool, a: Message, b: Message)
    requires Closed(pool) && WellTyped(pool, a) && WellTyped(pool, b)
  {
    a.descriptor == b.descriptor
    && forall q :: Leaf(pool, a.descriptor, q) ==> Read(pool, a, q) == Read(pool, b, q)
  }

  // ----- a mask applied again -----

  lemma SetTwice(m: Message, name: string, v: Value, w: Value)
    ensures Set(Set(m, name, v), name, w) == Set(m, name, w) && Clear(Set(m, name, v), name) == Clear(m, name)
    ensures Set(Clear(m, name), name, w) == Set(m, name, w) && Clear(Clear(m, name), name) == Clear(m, name)
  {
    assert m.values[name := v][name := w] == m.values[name := w];
    assert m.values[name := v] - {name} == m.values - {name};
    assert (m.values - {name})[name := w] == m.values[name := w];
    assert m.values - {name} - {name} == m.values - {name};
  }

  /** A path applied behind one below it hides it. */
  lemma {:induction false} PathHides(pool: Pool, dst: Message, src: Message, p: seq<string>, q: seq<string>)
    requires Closed(pool) && WellTyped(pool, dst) && WellTyped(pool, src) && dst.descriptor == src.descriptor
    requires p != [] && p <= q
    ensures UpdateNamed(pool, UpdateNamed(pool, dst, src, q), src, p) == UpdateNamed(pool, dst, src, p)
    decreases |p|
  {
    var name := p[0];
    assert q[0] == name;
    if |p| == 1 {
      assert p == [name];
      HiddenLeaf(pool, dst, src, name, q);
    } else if name in src.descriptor.fields && src.descriptor.fields[name].SingularMessage() {
      SubIsTyped(pool, dst, name);
      SubIsTyped(pool, src, name);
      PathHides(pool, Sub(pool, dst, name), Sub(pool, src, name), p[1..], q[1..]);
      HiddenBelow(pool, dst, src, p, q);
    }
  }

  lemma HiddenLeaf(pool: Pool, dst: Message, src: Message, name: string, q: seq<string>)
    requires Closed(pool) && WellTyped(pool, dst) && WellTyped(pool, src) && dst.descriptor == src.descriptor
    requires q != [] && q[0] == name
    ensures UpdateNamed(pool, UpdateNamed(pool, dst, src, q), src, [name]) == UpdateNamed(pool, dst, src, [name])
  {
    var step := StepOf(pool, dst, src, q);
    var v := if step.Assigned? then step.value else Value.Bool(false);
    var w := if src.Has(name) then src.values[name] else Value.Bool(false);
    SetTwice(dst, name, v, w);
  }

  lemma HiddenBelow(pool: Pool, dst: Message, src: Message, p: seq<string>, q: seq<string>)
    requires Closed(pool) && WellTyped(pool, dst) && WellTyped(pool, src) && dst.descriptor == src.descriptor
    requires |p| > 1 && |q| > 1 && p[0] == q[0] && p[0] in src.descriptor.fields && src.descriptor.fields[p[0]].SingularMessage()
    requires var d, s := Sub(pool, dst, p[0]), Sub(pool, src, p[0]);
             WellTyped(pool, d) && WellTyped(pool, s) && d.descriptor == s.descriptor
             && UpdateNamed(pool, UpdateNamed(pool, d, s, q[1..]), s, p[1..]) == UpdateNamed(pool, d, s, p[1..])
    ensures UpdateNamed(pool, UpdateNamed(pool, dst, src, q), src, p) == UpdateNamed(pool, dst, src, p)
  {
    var name := p[0];
    var d, s := Sub(pool, dst, name), Sub(pool, src, name);
    var dq, dp := UpdateNamed(pool, d, s, q[1..]), UpdateNamed(pool, d, s, p[1..]);
    BelowStep(pool, dst, src, q);
    BelowStep(pool, dst, src, p);
    BelowStep(pool, Set(dst, name, Msg(dq)), src, p);
    SetTwice(dst, name, Msg(dq), Msg(dp));
  }

  /** A path that goes on below its first field updates the submessage there. */
  lemma BelowStep(pool: Pool, dst: Message, src: Message, p: seq<string>)
    requires Closed(pool) && WellTyped(pool, dst) && WellTyped(pool, src) && dst.descriptor == src.descriptor
    requires |p| > 1 && p[0] in src.descriptor.fields && src.descriptor.fields[p[0]].SingularMessage()
    ensures var d, s := Sub(pool, dst, p[0]), Sub(pool, src, p[0]);
            WellTyped(pool, d) && WellTyped(pool, s) && d.descriptor == s.descriptor
            && UpdateNamed(pool, dst, src, p) == Set(dst, p[0], Msg(UpdateNamed(pool, d, s, p[1..])))
  {
    SubIsTyped(pool, dst, p[0]);
    SubIsTyped(pool, src, p[0]);
  }

  lemma SetApart(m: Message, a: string, v: Value, b: string, w: Value)
    requires a != b
    ensures Set(Set(m, a, v), b, w) == Set(Set(m, b, w), a, v) && Clear(Set(m, a, v), b) == Set(Clear(m, b), a, v)
    ensures Set(Clear(m, a), b, w) == Clear(Set(m, b, w), a) && Clear(Clear(m, a), b) == Clear(Clear(m, b), a)
  {
    assert m.values[a := v][b := w] == m.values[b := w][a := v];
    assert m.values[a := v] - {b} == (m.values - {b})[a := v];
    assert (m.values - {a})[b := w] == m.values[b := w] - {a};
    assert m.values - {a} - {b} == m.values - {b} - {a};
  }

  /** Paths of which neither is above the other can be applied in either order. */
  lemma {:induction false} PathsCommute(pool: Pool, dst: Message, src: Message, p: seq<string>, q: seq<string>)
    requires Closed(pool) && WellTyped(pool, dst) && WellTyped(pool, src) && dst.descriptor == src.descriptor
    requires !(p <= q) && !(q <= p)
    ensures UpdateNamed(pool, UpdateNamed(pool, dst, src, q), src, p) == UpdateNamed(pool, UpdateNamed(pool, dst, src, p), src, q)
    decreases |p|
  {
    var a, b := p[0], q[0];
    if a == b {
      assert |p| > 1 && |q| > 1;
      if a in src.descriptor.fields && src.descriptor.fields[a].SingularMessage() {
        SubIsTyped(pool, dst, a);
        SubIsTyped(pool, src, a);
        PathsCommute(pool, Sub(pool, dst, a), Sub(pool, src, a), p[1..], q[1..]);
        SameFieldCommutes(pool, dst, src, p, q);
      }
    } else {
      FieldsCommute(pool, dst, src, p, q);
    }
  }

  lemma {:induction false} SameFieldCommutes(pool: Pool, dst: Message, src: Message, p: seq<string>, q: seq<string>)
    requires Closed(pool) && WellTyped(pool, dst) && WellTyped(pool, src) && dst.descriptor == src.descriptor
    requires |p| > 1 && |q| > 1 && p[0] == q[0] && p[0] in src.descriptor.fields && src.descriptor.fields[p[0]].SingularMessage()
    requires var d, s := Sub(pool, dst, p[0]), Sub(pool, src, p[0]);
             WellTyped(pool, d) && WellTyped(pool, s) && d.descriptor == s.descriptor
             && UpdateNamed(pool, UpdateNamed(pool, d, s, q[1..]), s, p[1..])
                == UpdateNamed(pool, UpdateNamed(pool, d, s, p[1..]), s, q[1..])
    ensures UpdateNamed(pool, UpdateNamed(pool, dst, src, q), src, p) == UpdateNamed(pool, UpdateNamed(pool, dst, src, p), src, q)
  {
    var name := p[0];
    var d, s := Sub(pool, dst, name), Sub(pool, src, name);
    var dq, dp := UpdateNamed(pool, d, s, q[1..]), UpdateNamed(pool, d, s, p[1..]);
    assert UpdateNamed(pool, dst, src, q) == Set(dst, name, Msg(dq));
    assert UpdateNamed(pool, dst, src, p) == Set(dst, name, Msg(dp));
    var both := Msg(UpdateNamed(pool, dq, s, p[1..]));
    SetTwice(dst, name, Msg(dq), both);
    SetTwice(dst, name, Msg(dp), both);
  }

  /** What one path does to the field it starts in: nothing, clear it or set it. */
  datatype Step = Nothing | Cleared | Assigned(value: Value)

  function Apply(m: Message, name: string, step: Step): Message {
    match step case Nothing => m case Cleared => Clear(m, name) case Assigned(v) => Set(m, name, v)
  }

  lemma StepOf(pool: Pool, dst: Message, src: Message, p: seq<string>) returns (step: Step)
    requires Closed(pool) && WellTyped(pool, dst) && WellTyped(pool, src) && dst.descriptor == src.descriptor && p != []
    ensures UpdateNamed(pool, dst, src, p) == Apply(dst, p[0], step)
    ensures forall other ::
              WellTyped(pool, other) && other.descriptor == src.descriptor
              && (p[0] in other.values <==> p[0] in dst.values)
              && (p[0] in dst.values ==> other.values[p[0]] == dst.values[p[0]]) ==>
              UpdateNamed(pool, other, src, p) == Apply(other, p[0], step)
  {
    var name := p[0];
    step := Nothing;
    if name in src.descriptor.fields {
      var field := src.descriptor.fields[name];
      if |p| == 1 {
        step := if src.Has(name) then Assigned(src.values[name]) else Cleared;
      } else if field.SingularMessage() {
        SubIsTyped(pool, dst, name);
        SubIsTyped(pool, src, name);
        step := Assigned(Msg(UpdateNamed(pool, Sub(pool, dst, name), Sub(pool, src, name), p[1..])));
      }
    }
  }

  lemma {:induction false} FieldsCommute(pool: Pool, dst: Message, src: Message, p: seq<string>, q: seq<string>)
    requires Closed(pool) && WellTyped(pool, dst) && WellTyped(pool, src) && dst.descriptor == src.descriptor
    requires p != [] && q != [] && p[0] != q[0]
    ensures UpdateNamed(pool, UpdateNamed(pool, dst, src, q), src, p) == UpdateNamed(pool, UpdateNamed(pool, dst, src, p), src, q)
  {
    var atP := StepOf(pool, dst, src, p);
    var atQ := StepOf(pool, dst, src, q);
    assert UpdateNamed(pool, UpdateNamed(pool, dst, src, q), src, p) == Apply(Apply(dst, q[0], atQ), p[0], atP);
    assert UpdateNamed(pool, UpdateNamed(pool, dst, src, p), src, q) == Apply(Apply(dst, p[0], atP), q[0], atQ);
    StepsCommute(dst, p[0], atP, q[0], atQ);
  }

  lemma StepsCommute(m: Message, a: string, s: Step, b: string, t: Step)
    requires a != b
    ensures Apply(Apply(m, a, s), b, t) == Apply(Apply(m, b, t), a, s)
  {
    var v := if s.Assigned? then s.value else Value.Bool(false);
    var w := if t.Assigned? then t.value else Value.Bool(false);
    SetApart(m, a, v, b, w);
    SetApart(m, b, w, a, v);
  }

  /** Some path of the mask is the path or stands above it. */
  ghost predicate Covered(paths: seq<string>, q: seq<string>) {
    exists i :: 0 <= i < |paths| && Split(paths[i], '.') <= q
  }

  /** A covered path applied before the mask leaves no trace. */
  lemma {:induction false} MaskHides(pool: Pool, dst: Message, src: Message, q: seq<string>, paths: seq<string>)
    requires Closed(pool) && WellTyped(pool, dst) && WellTyped(pool, src) && dst.descriptor == src.descriptor
    requires Covered(paths, q)
    ensures UpdateAll(pool, UpdateNamed(pool, dst, src, q), src, paths) == UpdateAll(pool, dst, src, paths)
    decreases |paths|
  {
    var p, rest := Split(paths[0], '.'), paths[1..];
    if p <= q {
      PathHides(pool, dst, src, p, q);
    } else {
      var i :| 0 <= i < |paths| && Split(paths[i], '.') <= q;
      assert rest[i - 1] == paths[i];
      assert Covered(rest, q);
      if q <= p {
        assert Split(rest[i - 1], '.') <= p;
        MaskHides(pool, UpdateNamed(pool, dst, src, q), src, p, rest);
        MaskHides(pool, dst, src, q, rest);
        MaskHides(pool, dst, src, p, rest);
      } else {
        PathsCommute(pool, dst, src, p, q);
        MaskHides(pool, UpdateNamed(pool, dst, src, p), src, q, rest);
      }
    }
  }

  /** A mask hides every mask applied before it whose paths it covers. */
  lemma {:induction false} MaskOverMask(pool: Pool, dst: Message, src: Message, before: seq<string>, paths: seq<string>)
    requires Closed(pool) && WellTyped(pool, dst) && WellTyped(pool, src) && dst.descriptor == src.descriptor
    requires forall i :: 0 <= i < |before| ==> Covered(paths, Split(before[i], '.'))
    ensures UpdateAll(pool, UpdateAll(pool, dst, src, before), src, paths) == UpdateAll(pool, dst, src, paths)
    decreases |before|
  {
    if before != [] {
      assert Covered(paths, Split(before[0], '.'));
      MaskOverMask(pool, UpdateNamed(pool, dst, src, Split(before[0], '.')), src, before[1..], paths);
      MaskHides(pool, dst, src, Split(before[0], '.'), paths);
    }
  }

  /** Applying a mask twice gives the same message as applying it once, whatever paths it
      repeats or nests. */
  lemma MaskTwice(pool: Pool, dst: Message, src: Message, paths: seq<string>)
    requires Closed(pool) && WellTyped(pool, dst) && WellTyped(pool, src) && dst.descriptor == src.descriptor
    ensures var once := UpdateAll(pool, dst, src, paths); UpdateAll(pool, once, src, paths) == once
  {
    forall i | 0 <= i < |paths| ensures Covered(paths, Split(paths[i], '.')) {
      assert Split(paths[i], '.') <= Split(paths[i], '.');
    }
    MaskOverMask(pool, dst, src, paths, paths);
  }

  /** Neither the order of a mask's paths nor their repetition changes any read. */
  lemma MaskOrder(pool: Pool, dst: Message, src: Message, paths: seq<string>, others: seq<string>)
    requires Closed(pool) && WellTyped(pool, dst) && WellTyped(pool, src) && dst.descriptor == src.descriptor
    requires forall path :: path in paths <==> path in others
    ensures SameReads(pool, UpdateAll(pool, dst, src, paths), UpdateAll(pool, dst, src, others))
  {
    var a, b := UpdateAll(pool, dst, src, paths), UpdateAll(pool, dst, src, others);
    forall q | Leaf(pool, dst.descriptor, q) ensures Read(pool, a, q) == Read(pool, b, q) {
      MaskReads(pool, dst, src, paths, q);
      MaskReads(pool, dst, src, others, q);
      assert Masked(paths, q) <==> Masked(others, q);
    }
  }

  // ----- the order of two paths -----

  /** Some submessage the path descends through is unset. */
  ghost predicate Lacks(pool: Pool, m: Message, q: seq<string>)
    requires WellTyped(pool, m)
    decreases |q|
  {
    |q| > 1 && q[0] in m.descriptor.fields && m.descriptor.fields[q[0]].SingularMessage()
    && (q[0] in m.values ==> Lacks(pool, m.values[q[0]].message, q[1..]))
  }

  /** The inner path goes on below the submessage the outer one names, through one that is
      unset in the source: applied behind the outer path it allocates it again. */
  ghost predicate Reallocates(pool: Pool, src: Message, outer: seq<string>, inner: seq<string>)
    requires WellTyped(pool, src)
  {
    outer < inner
    && FieldAt(pool, src.descriptor, outer).Some? && FieldAt(pool, src.descriptor, outer).value.SingularMessage()
    && Lacks(pool, src, inner)
  }

  /** Updating a message from itself changes it exactly by what it allocates. */
  lemma {:induction false} UpdatedFromItself(pool: Pool, m: Message, q: seq<string>)
    requires Closed(pool) && WellTyped(pool, m)
    ensures UpdateNamed(pool, m, m, q) == m <==> !Lacks(pool, m, q)
    decreases |q|
  {
    if |q| == 1 && q[0] in m.descriptor.fields {
      assert m.values - {q[0]} == m.values || q[0] in m.values;
      assert q[0] in m.values ==> m.values[q[0] := m.values[q[0]]] == m.values;
    } else if |q| > 1 && q[0] in m.descriptor.fields && m.descriptor.fields[q[0]].SingularMessage() {
      var s := Sub(pool, m, q[0]);
      BelowStep(pool, m, m, q);
      if q[0] in m.values {
        UpdatedFromItself(pool, s, q[1..]);
        SetSame(m, q[0], Msg(UpdateNamed(pool, s, s, q[1..])));
      } else {
        assert q[0] in UpdateNamed(pool, m, m, q).values;
      }
    }
  }

  lemma SetSame(m: Message, name: string, v: Value)
    requires name in m.values
    ensures Set(m, name, v) == m <==> m.values[name] == v
  {
    assert m.values[name := v][name] == v;
    assert m.values[name := m.values[name]] == m.values;
  }

  /** Behind an outer path an inner one changes nothing exactly unless it reallocates. */
  lemma {:induction false} PathSettles(pool: Pool, dst: Message, src: Message, p: seq<string>, q: seq<string>)
    requires Closed(pool) && WellTyped(pool, dst) && WellTyped(pool, src) && dst.descriptor == src.descriptor
    requires p != [] && p < q
    ensures UpdateNamed(pool, UpdateNamed(pool, dst, src, p), src, q) == UpdateNamed(pool, dst, src, p)
            <==> !Reallocates(pool, src, p, q)
    decreases |p|
  {
    var name := p[0];
    assert q[0] == name && |q| > 1;
    if name in src.descriptor.fields && src.descriptor.fields[name].SingularMessage() {
      if |p| == 1 {
        assert p == [name];
        OuterSettles(pool, dst, src, name, q);
      } else {
        SubIsTyped(pool, dst, name);
        SubIsTyped(pool, src, name);
        PathSettles(pool, Sub(pool, dst, name), Sub(pool, src, name), p[1..], q[1..]);
        SettlesBelow(pool, dst, src, p, q);
        ReallocatesBelow(pool, src, p, q);
      }
    }
  }

  lemma OuterSettles(pool: Pool, dst: Message, src: Message, name: string, q: seq<string>)
    requires Closed(pool) && WellTyped(pool, dst) && WellTyped(pool, src) && dst.descriptor == src.descriptor
    requires |q| > 1 && q[0] == name && name in src.descriptor.fields && src.descriptor.fields[name].SingularMessage()
    ensures UpdateNamed(pool, UpdateNamed(pool, dst, src, [name]), src, q) == UpdateNamed(pool, dst, src, [name])
            <==> !Lacks(pool, src, q)
  {
    var outer := UpdateNamed(pool, dst, src, [name]);
    BelowStep(pool, outer, src, q);
    if src.Has(name) {
      var s := src.values[name].message;
      assert Sub(pool, outer, name) == s == Sub(pool, src, name);
      UpdatedFromItself(pool, s, q[1..]);
      SetSame(outer, name, Msg(UpdateNamed(pool, s, s, q[1..])));
    } else {
      assert name !in outer.values && name in UpdateNamed(pool, outer, src, q).values;
    }
  }

  lemma SettlesBelow(pool: Pool, dst: Message, src: Message, p: seq<string>, q: seq<string>)
    requires Closed(pool) && WellTyped(pool, dst) && WellTyped(pool, src) && dst.descriptor == src.descriptor
    requires |p| > 1 && |q| > 1 && p[0] == q[0] && p[0] in src.descriptor.fields && src.descriptor.fields[p[0]].SingularMessage()
    ensures var d, s := Sub(pool, dst, p[0]), Sub(pool, src, p[0]);
            WellTyped(pool, d) && WellTyped(pool, s) && d.descriptor == s.descriptor
            && (UpdateNamed(pool, UpdateNamed(pool, dst, src, p), src, q) == UpdateNamed(pool, dst, src, p)
                <==> UpdateNamed(pool, UpdateNamed(pool, d, s, p[1..]), s, q[1..]) == UpdateNamed(pool, d, s, p[1..]))
  {
    var name := p[0];
    BelowStep(pool, dst, src, p);
    var dp := UpdateNamed(pool, Sub(pool, dst, name), Sub(pool, src, name), p[1..]);
    var outer := Set(dst, name, Msg(dp));
    BelowStep(pool, outer, src, q);
    SetSame(outer, name, Msg(UpdateNamed(pool, dp, Sub(pool, src, name), q[1..])));
  }

  lemma ReallocatesBelow(pool: Pool, src: Message, p: seq<string>, q: seq<string>)
    requires Closed(pool) && WellTyped(pool, src) && |p| > 1 && p < q
    requires p[0] in src.descriptor.fields && src.descriptor.fields[p[0]].SingularMessage()
    ensures var s := Sub(pool, src, p[0]);
            WellTyped(pool, s) && (Reallocates(pool, src, p, q) <==> Reallocates(pool, s, p[1..], q[1..]))
  {
    SubIsTyped(pool, src, p[0]);
    assert q[0] == p[0] && p[1..] < q[1..] && q[1..][0] == p[1..][0];
  }

  /** Two paths of a mask give the same message in either order if and only if neither goes
      on below the other through a submessage the source lacks: then the order decides
      whether the submessage is left set. */
  lemma TwoOrdersAgreeExactly(pool: Pool, dst: Message, src: Message, a: string, b: string)
    requires Closed(pool) && WellTyped(pool, dst) && WellTyped(pool, src) && dst.descriptor == src.descriptor
    ensures UpdateAll(pool, dst, src, [a, b]) == UpdateAll(pool, dst, src, [b, a])
            <==> !Reallocates(pool, src, Split(a, '.'), Split(b, '.')) && !Reallocates(pool, src, Split(b, '.'), Split(a, '.'))
  {
    TwoPaths(pool, dst, src, a, b);
    TwoPaths(pool, dst, src, b, a);
    PathsCommuteExactly(pool, dst, src, Split(a, '.'), Split(b, '.'));
  }

  lemma PathsCommuteExactly(pool: Pool, dst: Message, src: Message, p: seq<string>, q: seq<string>)
    requires Closed(pool) && WellTyped(pool, dst) && WellTyped(pool, src) && dst.descriptor == src.descriptor
    requires p != [] && q != []
    ensures UpdateNamed(pool, UpdateNamed(pool, dst, src, p), src, q) == UpdateNamed(pool, UpdateNamed(pool, dst, src, q), src, p)
            <==> !Reallocates(pool, src, p, q) && !Reallocates(pool, src, q, p)
  {
    if p < q {
      PathHides(pool, dst, src, p, q);
      PathSettles(pool, dst, src, p, q);
    } else if q < p {
      PathHides(pool, dst, src, q, p);
      PathSettles(pool, dst, src, q, p);
    } else if p != q {
      PathsCommute(pool, dst, src, p, q);
    }
  }

  lemma TwoPaths(pool: Pool, dst: Message, src: Message, a: string, b: string)
    requires Closed(pool) && WellTyped(pool, dst) && WellTyped(pool, src) && dst.descriptor == src.descriptor
    ensures UpdateAll(pool, dst, src, [a, b])
         == UpdateNamed(pool, UpdateNamed(pool, dst, src, Split(a, '.')), src, Split(b, '.'))
  {
    assert [a, b][1..] == [b];
    LastPath(pool, UpdateNamed(pool, dst, src, Split(a, '.')), src, b);
  }

  lemma LastPath(pool: Pool, dst: Message, src: Message, b: string)
    requires Closed(pool) && WellTyped(pool, dst) && WellTyped(pool, src) && dst.descriptor == src.descriptor
    ensures UpdateAll(pool, dst, src, [b]) == UpdateNamed(pool, dst, src, Split(b, '.'))
  {
    var updated := UpdateNamed(pool, dst, src, Split(b, '.'));
    assert UpdateAll(pool, dst, src, [b]) == UpdateAll(pool, updated, src, [b][1..]);
    assert [b][1..] == [];
  }

  // ----- the empty mask -----

  /** `update_wire_set_fields`: set fields are copied, submessages set on both sides merged. */
  function MergeSet(pool: Pool, dst: Message, src: Message): (r: Message)
    requires Closed(pool) && WellTyped(pool, dst) && WellTyped(pool, src) && dst.descriptor == src.descriptor
    ensures WellTyped(pool, r) && r.descriptor == dst.descriptor
    decreases src
  {
    dst.(values := map name | name in dst.values.Keys + src.values.Keys :: MergedValue(pool, dst, src, name))
  }

  function MergedValue(pool: Pool, dst: Message, src: Message, name: string): (v: Value)
    requires Closed(pool) && WellTyped(pool, dst) && WellTyped(pool, src) && dst.descriptor == src.descriptor
    requires name in dst.values || name in src.values
    ensures src.descriptor.fields[name].SingularMessage() ==>
              v.Msg? && v.message.descriptor == pool[src.descriptor.fields[name].kind.fullName] && WellTyped(pool, v.message)
    decreases src, 0
  {
    if name !in src.values then dst.values[name]
    else if src.descriptor.fields[name].SingularMessage() && name in dst.values then
      Msg(MergeSet(pool, dst.values[name].message, src.values[name].message))
    else src.values[name]
  }

  lemma MergedAt(pool: Pool, dst: Message, src: Message, name: string)
    requires Closed(pool) && WellTyped(pool, dst) && WellTyped(pool, src) && dst.descriptor == src.descriptor
    ensures name in MergeSet(pool, dst, src).values <==> name in dst.values || name in src.values
    ensures name in MergeSet(pool, dst, src).values ==>
              MergeSet(pool, dst, src).values[name] == MergedValue(pool, dst, src, name)
  {}

  /** Reading an empty message reads the field's default. */
  lemma {:induction false} EmptyReads(pool: Pool, empty: Message, q: seq<string>)
    requires Closed(pool) && WellTyped(pool, empty) && empty.values == map[] && Leaf(pool, empty.descriptor, q)
    ensures Read(pool, empty, q) == Some(Default(FieldAt(pool, empty.descriptor, q).value))
    decreases |q|
  {
    if |q| > 1 {
      SubIsTyped(pool, empty, q[0]);
      EmptyReads(pool, Sub(pool, empty, q[0]), q[1..]);
    }
  }

  /** A leaf that is not set reads its default. */
  lemma {:induction false} UnsetReads(pool: Pool, message: Message, q: seq<string>)
    requires Closed(pool) && WellTyped(pool, message) && Leaf(pool, message.descriptor, q) && !HasAt(pool, message, q)
    ensures Read(pool, message, q) == Some(Default(FieldAt(pool, message.descriptor, q).value))
    decreases |q|
  {
    if |q| > 1 {
      SubIsTyped(pool, message, q[0]);
      if q[0] in message.values {
        UnsetReads(pool, message.values[q[0]].message, q[1..]);
      } else {
        EmptyReads(pool, Sub(pool, message, q[0]), q[1..]);
      }
    }
  }

  /** An empty mask changes exactly the leaves set on the source. */
  lemma {:induction false} MergeReads(pool: Pool, dst: Message, src: Message, q: seq<string>)
    requires Closed(pool) && WellTyped(pool, dst) && WellTyped(pool, src) && dst.descriptor == src.descriptor
    requires Leaf(pool, dst.descriptor, q)
    ensures Read(pool, MergeSet(pool, dst, src), q)
            == if HasAt(pool, src, q) then Read(pool, src, q) else Read(pool, dst, q)
    decreases |q|
  {
    var r, name := MergeSet(pool, dst, src), q[0];
    MergedAt(pool, dst, src, name);
    if name !in src.values {
      ReadsAlike(pool, r, dst, q);
    } else if |q| > 1 && name in dst.values {
      MergeReads(pool, dst.values[name].message, src.values[name].message, q[1..]);
    } else {
      ReadsAlike(pool, r, src, q);
      if !HasAt(pool, src, q) {
        UnsetReads(pool, src, q);
        UnsetReads(pool, dst, q);
      }
    }
  }

  /** Merging twice gives the same message as merging once. */
  lemma {:induction false} MergeTwice(pool: Pool, dst: Message, src: Message)
    requires Closed(pool) && WellTyped(pool, dst) && WellTyped(pool, src) && dst.descriptor == src.descriptor
    ensures var once := MergeSet(pool, dst, src); MergeSet(pool, once, src) == once
    decreases src
  {
    var once := MergeSet(pool, dst, src);
    var twice := MergeSet(pool, once, src);
    forall name
      ensures name in twice.values <==> name in once.values
      ensures name in once.values ==> twice.values[name] == once.values[name]
    {
      MergedAt(pool, dst, src, name);
      MergedAt(pool, once, src, name);
      if name in src.values && src.descriptor.fields[name].SingularMessage() {
        var sub := src.values[name].message;
        if name in dst.values {
          MergeTwice(pool, dst.values[name].message, sub);
        } else {
          MergeItself(pool, sub);
        }
      }
    }
    assert twice.values == once.values;
  }

  /** A message merged into itself stays as it is. */
  lemma {:induction false} MergeItself(pool: Pool, m: Message)
    requires Closed(pool) && WellTyped(pool, m)
    ensures MergeSet(pool, m, m) == m
    decreases m
  {
    var r := MergeSet(pool, m, m);
    forall name
      ensures name in r.values <==> name in m.values
      ensures name in m.values ==> r.values[name] == m.values[name]
    {
      MergedAt(pool, m, m, name);
      if name in m.values && m.descriptor.fields[name].SingularMessage() {
        MergeItself(pool, m.values[name].message);
      }
    }
    assert r.values == m.values;
  }

  // ----- the operations -----

  predicate FullReplacement(paths: seq<string>) {
    |paths| == 1 && paths[0] == WILDCARD_PATH
  }

  /** The target after an update of matching types. */
  function Updated(pool: Pool, dst: Message, src: Message, paths: seq<string>): (r: Message)
    requires Closed(pool) && WellTyped(pool, dst) && WellTyped(pool, src) && dst.descriptor == src.descriptor
    ensures WellTyped(pool, r) && r.descriptor == dst.descriptor
  {
    if paths == [] then MergeSet(pool, dst, src)
    else if FullReplacement(paths) then src
    else UpdateAll(pool, dst, src, paths)
  }

  /** Whatever the mask, the same update a second time changes nothing. */
  lemma UpdatedTwice(pool: Pool, dst: Message, src: Message, paths: seq<string>)
    requires Closed(pool) && WellTyped(pool, dst) && WellTyped(pool, src) && dst.descriptor == src.descriptor
    ensures Updated(pool, Updated(pool, dst, src, paths), src, paths) == Updated(pool, dst, src, paths)
  {
    if paths == [] {
      MergeTwice(pool, dst, src);
    } else if !FullReplacement(paths) {
      MaskTwice(pool, dst, src, paths);
    }
  }

  /** The message an update is applied to. */
  class Target {
    var message: Message

    constructor (message: Message)
      ensures this.message == message
    {
      this.message := message;
    }

    /** `update_dynamic`. */
    method Update(pool: Pool, paths: seq<string>, src: Message) returns (r: Result<(), MaskError>)
      requires Closed(pool) && WellTyped(pool, message) && WellTyped(pool, src)
      modifies this
      ensures WellTyped(pool, message)
      ensures old(message).descriptor != src.descriptor ==> r == Err(TypeMismatch) && message == old(message)
      ensures old(message).descriptor == src.descriptor ==>
                r == Ok(()) && message == Updated(pool, old(message), src, paths)
    {
      if message.descriptor != src.descriptor {
        return Err(TypeMismatch);
      }
      if paths == [] {
        MergeFields(pool, src);
      } else if FullReplacement(paths) {
        message := src;
      } else {
        assert paths[0..] == paths;
        for i := 0 to |paths|
          invariant WellTyped(pool, message) && message.descriptor == src.descriptor
          invariant UpdateAll(pool, message, src, paths[i..]) == UpdateAll(pool, old(message), src, paths)
        {
          assert paths[i..][0] == paths[i] && paths[i..][1..] == paths[i + 1..];
          message := UpdateNamed(pool, message, src, Split(paths[i], '.'));
        }
        assert paths[|paths|..] == [];
      }
      return Ok(());
    }

    /** The loop over the fields set on the source. */
    method MergeFields(pool: Pool, src: Message)
      requires Closed(pool) && WellTyped(pool, message) && WellTyped(pool, src) && message.descriptor == src.descriptor
      modifies this
      ensures message == MergeSet(pool, old(message), src)
    {
      ghost var dst := message;
      var rest := src.values.Keys;
      while rest != {}
        invariant rest <= src.values.Keys && PartlyMerged(pool, dst, src, rest, message)
        decreases |rest|
      {
        var name :| name in rest;
        var value := src.values[name];
        if src.descriptor.fields[name].SingularMessage() && name in message.values {
          value := Msg(MergeSet(pool, message.values[name].message, src.values[name].message));
        }
        PartlyMergedStep(pool, dst, src, rest, message, name, value);
        message := Set(message, name, value);
        rest := rest - {name};
      }
      AllMerged(pool, dst, src, message);
    }
  }

  /** Everything but the fields in `rest` is merged. */
  ghost predicate PartlyMerged(pool: Pool, dst: Message, src: Message, rest: set<string>, m: Message)
    requires Closed(pool) && WellTyped(pool, dst) && WellTyped(pool, src) && dst.descriptor == src.descriptor
  {
    m.descriptor == dst.descriptor
    && forall name ::
         (name in m.values <==> name in dst.values || (name in src.values && name !in rest))
         && (name in m.values ==>
               m.values[name] == if name in rest then dst.values[name] else MergedValue(pool, dst, src, name))
  }

  lemma PartlyMergedStep(pool: Pool, dst: Message, src: Message, rest: set<string>, m: Message, name: string, value: Value)
    requires Closed(pool) && WellTyped(pool, dst) && WellTyped(pool, src) && dst.descriptor == src.descriptor
    requires PartlyMerged(pool, dst, src, rest, m) && name in rest && name in src.values
    requires value == MergedValue(pool, dst, src, name)
    ensures PartlyMerged(pool, dst, src, rest - {name}, Set(m, name, value))
  {}

  lemma AllMerged(pool: Pool, dst: Message, src: Message, m: Message)
    requires Closed(pool) && WellTyped(pool, dst) && WellTyped(pool, src) && dst.descriptor == src.descriptor
    requires PartlyMerged(pool, dst, src, {}, m)
    ensures m == MergeSet(pool, dst, src)
  {
    var r := MergeSet(pool, dst, src);
    forall name ensures (name in m.values <==> name in r.values) && (name in m.values ==> m.values[name] == r.values[name]) {
      MergedAt(pool, dst, src, name);
    }
    assert m.values == r.values;
  }

  // ----- validation -----

  /** The message to descend into through a field: the element or value message of a list or
      map too. */
  function NextMessage(pool: Pool, field: Field): Option<Descriptor> {
    if field.kind.Message? && field.kind.fullName in pool then Some(pool[field.kind.fullName]) else None
  }

  function PathExists(pool: Pool, current: Option<Descriptor>, path: seq<string>): bool
    decreases |path|
  {
    path == []
    || (current.Some? && path[0] in current.value.fields
        && PathExists(pool, NextMessage(pool, current.value.fields[path[0]]), path[1..]))
  }

  method PathExistsIn(pool: Pool, descriptor: Descriptor, path: string) returns (r: bool)
    ensures r == PathExists(pool, Some(descriptor), Split(path, '.'))
  {
    var segments := Split(path, '.');
    var current := Some(descriptor);
    assert segments[0..] == segments;
    for i := 0 to |segments|
      invariant PathExists(pool, Some(descriptor), segments) == PathExists(pool, current, segments[i..])
    {
      assert segments[i..][0] == segments[i] && segments[i..][1..] == segments[i + 1..];
      if current.None? || segments[i] !in current.value.fields {
        return false;
      }
      current := NextMessage(pool, current.value.fields[segments[i]]);
    }
    return true;
  }

  /** Validation lets a path descend through lists and maps, applying it does not. */
  predicate DescendsMany(pool: Pool, descriptor: Descriptor, path: seq<string>)
    decreases |path|
  {
    |path| > 1 && path[0] in descriptor.fields
    && (!descriptor.fields[path[0]].cardinality.Singular?
        || (NextMessage(pool, descriptor.fields[path[0]]).Some?
            && DescendsMany(pool, NextMessage(pool, descriptor.fields[path[0]]).value, path[1..])))
  }

  /** So a valid path names a field an update can reach exactly when it descends through none. */
  lemma {:induction false} ValidPathApplies(pool: Pool, descriptor: Descriptor, path: seq<string>)
    requires path != [] && PathExists(pool, Some(descriptor), path)
    ensures FieldAt(pool, descriptor, path).Some? <==> !DescendsMany(pool, descriptor, path)
    decreases |path|
  {
    if |path| > 1 {
      var field := descriptor.fields[path[0]];
      assert path[1..] != [];
      if NextMessage(pool, field).Some? {
        ValidPathApplies(pool, NextMessage(pool, field).value, path[1..]);
      }
    }
  }

  /** `validate`. */
  method Validate(pool: Pool, descriptor: Descriptor, paths: seq<string>) returns (r: Result<(), MaskError>)
    ensures r.Ok? <==>
            if WILDCARD_PATH in paths then |paths| == 1
            else forall path :: path in paths ==> PathExists(pool, Some(descriptor), Split(path, '.'))
    ensures r.Err? && r.error.UnknownPath? ==>
              r.error.path in paths && !PathExists(pool, Some(descriptor), Split(r.error.path, '.'))
  {
    if WILDCARD_PATH in paths {
      return if |paths| != 1 then Err(WildcardNotAlone) else Ok(());
    }
    for i := 0 to |paths|
      invariant forall j :: 0 <= j < i ==> PathExists(pool, Some(descriptor), Split(paths[j], '.'))
    {
      var exists_ := PathExistsIn(pool, descriptor, paths[i]);
      if !exists_ {
        return Err(UnknownPath(paths[i]));
      }
    }
    return Ok(());
  }
}
