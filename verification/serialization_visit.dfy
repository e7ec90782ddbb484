// The serializing side of the class visitor: a serializable object is a
// sequence of members (one per registered action); visiting it pushes
// resolved actions on a stack, and ResolvedActionContext::Visit pops one
// action at a time, pushes its successor, then executes it, which writes
// bytes through the Serializer and may push the actions of a nested object
// or of a collection of objects. The effect is a pre-order walk whose bytes
// are given by the reference encoding EncodeMember/EncodeFields below.

module SerialVisit {
  import opened Common
  import opened SerialBytes
  import opened SerialBuffers

  /** sizeof(size_t) on the targets: element counts are written in 8 bytes. */
  const SIZE_T: nat := 8

  /** One visited member of a serializable object, as the const visitor sees it. */
  datatype Member =
    | Prim(value: nat, size: nat)                 // integral member, or a getter returning one
    | PrimArray(values: seq<nat>, size: nat)      // array, string or collection of integral elements
    | Nested(fields: seq<Member>)                 // member of class type: its own actions
    | NestedArray(instances: seq<Instance>)       // array or collection of class instances

  /** One instance of a class in a collection: its members, one per action. */
  datatype Instance = Instance(fields: seq<Member>)

  /** The reference byte image of a member: counts before elements, nested
      objects inline, in declaration order. */
  function EncodeMember(m: Member): seq<byte>
    decreases m, 1
  {
    match m
    case Prim(v, size) => LE(v, size)
    case PrimArray(vs, size) => LE(|vs|, SIZE_T) + EncodeAll(vs, size)
    case Nested(fs) => EncodeFields(fs)
    case NestedArray(insts) => LE(|insts|, SIZE_T) + EncodeInstances(insts)
  }

  function EncodeFields(fs: seq<Member>): seq<byte>
    decreases fs, 0
  {
    if fs == [] then [] else EncodeMember(fs[0]) + EncodeFields(fs[1..])
  }

  function EncodeInstances(insts: seq<Instance>): seq<byte>
    decreases insts, 0
  {
    if insts == [] then [] else EncodeFields(insts[0].fields) + EncodeInstances(insts[1..])
  }

  /** Work left in a member: every action the visit loop will still run on it. */
  function Size(m: Member): nat
    decreases m, 1
  {
    match m
    case Prim(_, _) => 1
    case PrimArray(_, _) => 1
    case Nested(fs) => 2 + SizeFields(fs)
    case NestedArray(insts) => 1 + SizeInstances(insts)
  }

  function SizeFields(fs: seq<Member>): nat
    decreases fs, 0
  {
    if fs == [] then 0 else Size(fs[0]) + SizeFields(fs[1..])
  }

  function SizeInstances(insts: seq<Instance>): nat
    decreases insts, 0
  {
    if insts == [] then 0 else 1 + SizeFields(insts[0].fields) + SizeInstances(insts[1..])
  }

  lemma {:induction false} EncodeFieldsSplit(fs: seq<Member>, c: nat)
    requires c < |fs|
    ensures EncodeFields(fs[c..]) == EncodeMember(fs[c]) + EncodeFields(fs[c + 1..])
    ensures SizeFields(fs[c..]) == Size(fs[c]) + SizeFields(fs[c + 1..])
  {
    assert fs[c..][1..] == fs[c + 1..];
  }

  /** A resolved action on the stack: ResolvedAction on one instance, or
      ResolvedCollectionAction on the instances still to visit. */
  datatype Frame =
    | Single(fields: seq<Member>, current: nat)
    | Collection(instances: seq<Instance>, current: nat)

  /** The resolved actions the kit can construct: the action index is within
      the instance's action list (or 0 for a class with no actions), and a
      collection action is never built for zero instances. */
  predicate ValidFrame(f: Frame)
  {
    match f
    case Single(fs, c) => c < |fs| || c == 0
    case Collection(insts, c) => |insts| > 0 && (c < |insts[0].fields| || c == 0)
  }

  /** The member the frame's action visits, if the class has any actions. */
  function Current(f: Frame): Option<Member>
    requires ValidFrame(f)
  {
    match f
    case Single(fs, c) => if |fs| > 0 then Some(fs[c]) else None
    case Collection(insts, c) => if |insts[0].fields| > 0 then Some(insts[0].fields[c]) else None
  }

  /** The bytes the frame and its successors will produce. */
  function Rest(f: Frame): seq<byte>
  {
    if !ValidFrame(f) then []
    else match f
      case Single(fs, c) => EncodeFields(fs[c..])
      case Collection(insts, c) => EncodeFields(insts[0].fields[c..]) + EncodeInstances(insts[1..])
  }

  /** Actions still to run for the frame and its successors, plus one. */
  function Work(f: Frame): nat
  {
    if !ValidFrame(f) then 0
    else match f
      case Single(fs, c) => SizeFields(fs[c..]) + 1
      case Collection(insts, c) => SizeFields(insts[0].fields[c..]) + SizeInstances(insts[1..]) + 1
  }

  function RestOpt(f: Option<Frame>): seq<byte>
  {
    if f.Some? then Rest(f.value) else []
  }

  function WorkOpt(f: Option<Frame>): nat
  {
    if f.Some? then Work(f.value) else 0
  }

  function EncodeOpt(m: Option<Member>): seq<byte>
  {
    if m.Some? then EncodeMember(m.value) else []
  }

  function SizeOpt(m: Option<Member>): nat
  {
    if m.Some? then Size(m.value) else 0
  }

  /** IResolvedAction::GetNext: the next action on the same instance, else
      the first action on the next instance of a collection, else none. */
  function GetNext(f: Frame): (r: Option<Frame>)
    requires ValidFrame(f)
    ensures r.Some? ==> ValidFrame(r.value)
    ensures Rest(f) == EncodeOpt(Current(f)) + RestOpt(r)
    ensures Work(f) >= SizeOpt(Current(f)) + WorkOpt(r) && Work(f) > WorkOpt(r)
  {
    match f
    case Single(fs, c) => NextAction(fs, c)
    case Collection(insts, c) => NextCollectionAction(insts, c)
  }

  /** ResolvedAction::GetNext: the next member of the same object, none
      after the last one. */
  function NextAction(fs: seq<Member>, c: nat): (r: Option<Frame>)
    requires ValidFrame(Single(fs, c))
    ensures r.Some? ==> ValidFrame(r.value) && r.value.Single? && r.value.fields == fs
    ensures Rest(Single(fs, c)) == EncodeOpt(Current(Single(fs, c))) + RestOpt(r)
    ensures Work(Single(fs, c)) >= SizeOpt(Current(Single(fs, c))) + WorkOpt(r)
    ensures Work(Single(fs, c)) > WorkOpt(r)
  {
    if |fs| == 0 then None
    else
      EncodeFieldsSplit(fs, c);
      if c == |fs| - 1 then
        assert fs[c + 1..] == [];
        None
      else Some(Single(fs, c + 1))
  }

  /** What GetNext promises of a successor `r` of the frame `f`: it is a
      frame the kit can build, the bytes left are the current member's
      then the successor's, and the work left shrinks. */
  ghost predicate Advances(f: Frame, r: Option<Frame>)
    requires ValidFrame(f)
  {
    && (r.Some? ==> ValidFrame(r.value))
    && Rest(f) == EncodeOpt(Current(f)) + RestOpt(r)
    && Work(f) >= SizeOpt(Current(f)) + WorkOpt(r) && Work(f) > WorkOpt(r)
  }

  /** ResolvedCollectionAction::GetNext: the next member of the same
      instance, else the first member of the next instance, none after the
      last instance. */
  function NextCollectionAction(insts: seq<Instance>, c: nat): (r: Option<Frame>)
    requires ValidFrame(Collection(insts, c))
    ensures r.Some? ==> r.value.Collection?
    ensures Advances(Collection(insts, c), r)
  {
    var inst := insts[0].fields;
    if |inst| == 0 || c == |inst| - 1 then
      if |insts| - 1 == 0 then
        LastInstance(insts, c);
        None
      else
        ToNextInstance(insts, c);
        Some(Collection(insts[1..], 0))
    else
      ToNextMember(insts, c);
      Some(Collection(insts, c + 1))
  }

  /** Inside an instance the successor is the next member. */
  lemma ToNextMember(insts: seq<Instance>, c: nat)
    requires ValidFrame(Collection(insts, c)) && c < |insts[0].fields| - 1
    ensures Advances(Collection(insts, c), Some(Collection(insts, c + 1)))
  {
    EncodeFieldsSplit(insts[0].fields, c);
  }

  /** After the last member of the last instance nothing is left. */
  lemma LastInstance(insts: seq<Instance>, c: nat)
    requires ValidFrame(Collection(insts, c)) && |insts| == 1
    requires |insts[0].fields| == 0 || c == |insts[0].fields| - 1
    ensures Advances(Collection(insts, c), None)
  {
    LastMember(insts, c);
    assert insts[1..] == [];
  }

  /** After the last member of an earlier instance the successor is the
      first member of the next instance. */
  lemma ToNextInstance(insts: seq<Instance>, c: nat)
    requires ValidFrame(Collection(insts, c)) && |insts| > 1
    requires |insts[0].fields| == 0 || c == |insts[0].fields| - 1
    ensures Advances(Collection(insts, c), Some(Collection(insts[1..], 0)))
  {
    LastMember(insts, c);
    NextInstance(insts);
  }

  /** At the last member of an instance (or on an instance with none), what
      is left is that member and then the later instances. */
  lemma LastMember(insts: seq<Instance>, c: nat)
    requires ValidFrame(Collection(insts, c))
    requires |insts[0].fields| == 0 || c == |insts[0].fields| - 1
    ensures Rest(Collection(insts, c)) == EncodeOpt(Current(Collection(insts, c))) + EncodeInstances(insts[1..])
    ensures Work(Collection(insts, c)) == SizeOpt(Current(Collection(insts, c))) + SizeInstances(insts[1..]) + 1
  {
    var inst := insts[0].fields;
    if |inst| > 0 {
      EncodeFieldsSplit(inst, c);
      assert inst[c + 1..] == [];
    } else {
      assert inst[c..] == [];
    }
  }

  /** The first action on the next instance leaves exactly the later
      instances to write. */
  lemma NextInstance(insts: seq<Instance>)
    requires |insts| > 1
    ensures ValidFrame(Collection(insts[1..], 0))
    ensures Rest(Collection(insts[1..], 0)) == EncodeInstances(insts[1..])
    ensures Work(Collection(insts[1..], 0)) == SizeInstances(insts[1..])
  {
    var rest := insts[1..];
    assert rest[0].fields[0..] == rest[0].fields;
  }

  /** The bytes the Serializer writes when the action visits a member. */
  function Emit(m: Member): seq<byte>
  {
    match m
    case Prim(v, size) => LE(v, size)
    case PrimArray(vs, size) => LE(|vs|, SIZE_T) + EncodeAll(vs, size)
    case Nested(_) => []
    case NestedArray(insts) => LE(|insts|, SIZE_T)
  }

  /** The action the visit pushes for a member of class type; an empty
      collection pushes nothing. */
  function Child(m: Member): (r: Option<Frame>)
    ensures r.Some? ==> ValidFrame(r.value)
    ensures EncodeMember(m) == Emit(m) + RestOpt(r)
    ensures WorkOpt(r) < Size(m)
  {
    match m
    case Nested(fs) => Some(Single(fs, 0))
    case NestedArray(insts) => if |insts| == 0 then None else Some(Collection(insts, 0))
    case _ => None
  }

  predicate ValidStack(stack: seq<Frame>)
  {
    forall i :: 0 <= i < |stack| ==> ValidFrame(stack[i])
  }

  /** All bytes the frames on the stack (top first) will still write. */
  function Pending(stack: seq<Frame>): seq<byte>
  {
    if stack == [] then [] else Rest(stack[0]) + Pending(stack[1..])
  }

  function TotalWork(stack: seq<Frame>): nat
  {
    if stack == [] then 0 else Work(stack[0]) + TotalWork(stack[1..])
  }

  function OptList(f: Option<Frame>): seq<Frame>
  {
    if f.Some? then [f.value] else []
  }

  lemma {:induction false} PendingPush(f: Option<Frame>, stack: seq<Frame>)
    requires f.Some? ==> ValidFrame(f.value)
    requires ValidStack(stack)
    ensures ValidStack(OptList(f) + stack)
    ensures Pending(OptList(f) + stack) == RestOpt(f) + Pending(stack)
    ensures TotalWork(OptList(f) + stack) == WorkOpt(f) + TotalWork(stack)
  {
    if f.Some? {
      assert (OptList(f) + stack)[1..] == stack;
    } else {
      assert OptList(f) + stack == stack;
    }
  }

  /** Popping the top action and pushing its successor leaves the bytes of
      the popped action's member still to write. */
  lemma PopPending(stack: seq<Frame>)
    requires ValidStack(stack) && stack != []
    ensures GetNext(stack[0]).Some? ==> ValidFrame(GetNext(stack[0]).value)
    ensures ValidStack(OptList(GetNext(stack[0])) + stack[1..])
    ensures Pending(stack) == EncodeOpt(Current(stack[0])) + Pending(OptList(GetNext(stack[0])) + stack[1..])
    ensures TotalWork(stack) >= SizeOpt(Current(stack[0])) + TotalWork(OptList(GetNext(stack[0])) + stack[1..])
    ensures Current(stack[0]).None? ==> TotalWork(stack) > TotalWork(OptList(GetNext(stack[0])) + stack[1..])
  {
    var first, tail := stack[0], stack[1..];
    var next := GetNext(first);
    PendingPush(next, tail);
    PendingPop(stack);
    Regroup(Pending(stack), Rest(first), EncodeOpt(Current(first)), RestOpt(next),
            Pending(tail), Pending(OptList(next) + tail));
  }

  lemma PendingPop(stack: seq<Frame>)
    requires stack != []
    ensures Pending(stack) == Rest(stack[0]) + Pending(stack[1..])
    ensures TotalWork(stack) == Work(stack[0]) + TotalWork(stack[1..])
  {
  }

  lemma Regroup(p: seq<byte>, r: seq<byte>, e: seq<byte>, n: seq<byte>, t: seq<byte>, q: seq<byte>)
    requires p == r + t && r == e + n && q == n + t
    ensures p == e + q
  {
  }

  /** Visiting a member writes its first bytes and pushes the action that
      writes the rest. */
  lemma ChildPending(m: Member, stack: seq<Frame>)
    requires ValidStack(stack)
    ensures ValidStack(OptList(Child(m)) + stack)
    ensures EncodeMember(m) + Pending(stack) == Emit(m) + Pending(OptList(Child(m)) + stack)
    ensures TotalWork(OptList(Child(m)) + stack) < Size(m) + TotalWork(stack)
  {
    var c := Child(m);
    PendingPush(c, stack);
    Regroup(EncodeMember(m) + Pending(stack), EncodeMember(m), Emit(m), RestOpt(c),
            Pending(stack), Pending(OptList(c) + stack));
  }

  /** One pass of the visit loop on a member: the bytes still to write are
      those the member emits now followed by those of the new stack. */
  lemma StepPending(s0: seq<Frame>, m: Member)
    requires ValidStack(s0) && s0 != [] && Current(s0[0]) == Some(m)
    ensures var after := OptList(Child(m)) + (OptList(GetNext(s0[0])) + s0[1..]);
      ValidStack(after) && Pending(s0) == Emit(m) + Pending(after)
      && TotalWork(after) < TotalWork(s0)
  {
    var before := OptList(GetNext(s0[0])) + s0[1..];
    PopPending(s0);
    ChildPending(m, before);
  }

  /** ConstVisitorContext with a Serializer writing into a fixed-size buffer:
      the resolved-action stack and the buffer it writes into. */
  class SerializeContext {
    var stack: seq<Frame>
    const buffer: FixedSizeSerializationBuffer

    ghost predicate Valid()
      reads this, buffer
    {
      ValidStack(stack) && buffer.Valid()
    }

    /** The bytes written into the buffer so far. */
    ghost function Written(): seq<byte>
      reads this, buffer, buffer.output
      requires Valid()
    {
      buffer.output[..buffer.bytesWritten]
    }

    constructor (buf: FixedSizeSerializationBuffer)
      requires buf.Valid()
      ensures Valid() && stack == [] && buffer == buf
    {
      stack := [];
      buffer := buf;
    }

    /** ResolvedActionContext::Push: the first action of an instance. */
    method Push(fields: seq<Member>)
      requires Valid()
      modifies this
      ensures Valid()
      ensures stack == [Single(fields, 0)] + old(stack)
    {
      stack := [Single(fields, 0)] + stack;
    }

    /** ResolvedActionContext::PushCollection: a no-op for zero instances. */
    method PushCollection(instances: seq<Instance>)
      requires Valid()
      modifies this
      ensures Valid()
      ensures |instances| == 0 ==> stack == old(stack)
      ensures |instances| > 0 ==> stack == [Collection(instances, 0)] + old(stack)
    {
      if |instances| == 0 {
        return;
      }
      stack := [Collection(instances, 0)] + stack;
    }

    /** Serializer::WriteIntegers into the buffer, seen as the bytes written. */
    method Write(vals: seq<nat>, size: nat) returns (r: Outcome<SerialError>)
      requires Valid()
      modifies buffer, buffer.output
      ensures Valid() && stack == old(stack)
      ensures r.Fail? <==> |old(Written())| + |EncodeAll(vals, size)| > buffer.output.Length
      ensures r.Fail? ==> r.error == OverflowError
      ensures r.Pass? ==> Written() == old(Written()) + EncodeAll(vals, size)
    {
      r := buffer.WriteIntegers(vals, size);
    }

    /** The write of one member through the Serializer, and the push of its
        nested actions. */
    method VisitMember(m: Member) returns (r: Outcome<SerialError>)
      requires Valid()
      modifies this, buffer, buffer.output
      ensures Valid()
      ensures r.Fail? <==> |old(Written())| + |Emit(m)| > buffer.output.Length
      ensures r.Fail? ==> r.error == OverflowError
      ensures r.Pass? ==> Written() == old(Written()) + Emit(m)
                          && stack == OptList(Child(m)) + old(stack)
    {
      match m
      case Prim(v, size) =>
        r := WriteValue(v, size);
      case PrimArray(vs, size) =>
        r := WriteArray(vs, size);
      case Nested(fs) =>
        stack := [Single(fs, 0)] + stack;
        r := Pass;
      case NestedArray(insts) =>
        r := WriteValue(|insts|, SIZE_T);
        if r.Pass? {
          PushCollection(insts);
        }
    }

    /** One integral value (or an element count) through the Serializer. */
    method WriteValue(v: nat, size: nat) returns (r: Outcome<SerialError>)
      requires Valid()
      modifies buffer, buffer.output
      ensures Valid() && stack == old(stack)
      ensures r.Fail? <==> |old(Written())| + |LE(v, size)| > buffer.output.Length
      ensures r.Fail? ==> r.error == OverflowError
      ensures r.Pass? ==> Written() == old(Written()) + LE(v, size)
    {
      assert EncodeAll([v], size) == LE(v, size);
      r := Write([v], size);
    }

    /** An array of integral elements: its count, then its elements. */
    method WriteArray(vs: seq<nat>, size: nat) returns (r: Outcome<SerialError>)
      requires Valid()
      modifies buffer, buffer.output
      ensures Valid() && stack == old(stack)
      ensures r.Fail? <==> |old(Written())| + |LE(|vs|, SIZE_T) + EncodeAll(vs, size)| > buffer.output.Length
      ensures r.Fail? ==> r.error == OverflowError
      ensures r.Pass? ==> Written() == old(Written()) + (LE(|vs|, SIZE_T) + EncodeAll(vs, size))
    {
      r := WriteValue(|vs|, SIZE_T);
      if r.Fail? {
        return;
      }
      r := Write(vs, size);
    }

    /** One pass of the Visit loop: pop the top action, push its successor,
        execute it. */
    method Step() returns (r: Outcome<SerialError>)
      requires Valid() && stack != []
      modifies this, buffer, buffer.output
      ensures Valid()
      ensures r.Fail? ==> r.error == OverflowError
                          && |old(Written())| + |old(Pending(stack))| > buffer.output.Length
      ensures r.Pass? ==> Written() + Pending(stack) == old(Written()) + old(Pending(stack))
                          && TotalWork(stack) < old(TotalWork(stack))
    {
      ghost var w0 := Written();
      ghost var s0 := stack;
      var first := stack[0];
      var next := GetNext(first);
      var current := Current(first);
      PopPending(s0);
      stack := OptList(next) + stack[1..];
      if current.Some? {
        var m := current.value;
        StepPending(s0, m);
        r := VisitMember(m);
        if r.Fail? {
          return;
        }
        Regroup(Written() + Pending(stack), Written(), w0, Emit(m), Pending(stack), Pending(s0));
      } else {
        r := Pass;
      }
    }

    /** ResolvedActionContext::Visit: run actions until the stack is empty. A
        write that does not fit throws out of the loop. */
    method Visit() returns (r: Outcome<SerialError>)
      requires Valid()
      modifies this, buffer, buffer.output
      ensures Valid()
      ensures r.Fail? <==> |old(Written())| + |old(Pending(stack))| > buffer.output.Length
      ensures r.Fail? ==> r.error == OverflowError
      ensures r.Pass? ==> stack == [] && Written() == old(Written()) + old(Pending(stack))
    {
      ghost var target := Written() + Pending(stack);
      while stack != []
        invariant Valid()
        invariant Written() + Pending(stack) == target
        decreases TotalWork(stack)
      {
        r := Step();
        if r.Fail? {
          return;
        }
      }
      r := Pass;
    }
  }

  /** Serialize(const T&, uint8_t*, size_t): visit the object's members into
      a fixed-size buffer and return the bytes written, or throw when the
      encoding does not fit. */
  method Serialize(fields: seq<Member>, output: array<byte>) returns (r: Result<nat, SerialError>)
    modifies output
    ensures r.Err? <==> |EncodeFields(fields)| > output.Length
    ensures r.Err? ==> r.error == OverflowError
    ensures r.Ok? ==> r.value == |EncodeFields(fields)| && output[..r.value] == EncodeFields(fields)
  {
    var buf := new FixedSizeSerializationBuffer(output);
    var ctx := new SerializeContext(buf);
    ctx.Push(fields);
    assert Pending(ctx.stack) == EncodeFields(fields);
    var o := ctx.Visit();
    if o.Fail? {
      return Err(o.error);
    }
    r := Ok(buf.bytesWritten);
  }
}
