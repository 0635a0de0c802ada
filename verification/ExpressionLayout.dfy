/** The `Expression` struct on the wire: 16 data bytes and two pointers in which the union's members
    overlap (literal and parameter share bytes, previousResult and function share pointer 0).
    Go and TypeScript place fields by byte offset, Rust by element index. */
module ExpressionLayout {
  import opened Wrappers
  import opened Bytes
  import opened Layout
  import opened Calculator

  type Data = s: seq<Byte> | |s| == 16 witness [0, 0, 0, 0, 0, 0, 0, 0, 0, 0, 0, 0, 0, 0, 0, 0]

  /** A pointer: null, an index into the message's capability table, or a list of structs. */
  datatype Ptr = NullPtr | CapPtr(index: nat) | ListPtr(elems: seq<Struct>)

  datatype Struct = Struct(data: Data, ptr0: Ptr, ptr1: Ptr)

  const ZERO_DATA: Data := [0, 0, 0, 0, 0, 0, 0, 0, 0, 0, 0, 0, 0, 0, 0, 0]
  const ZERO := Struct(ZERO_DATA, NullPtr, NullPtr)

  /** go/calculator/calculator.capnp.go:218-220, ts/src/calculator.capnp.ts:73,
      rust/src/schema/calculator_capnp.rs:159 */
  function TagSlot(l: Language): Slot {
    if l.Rust? then Element(2, 4) else Slot(8, 2)
  }

  function LiteralSlot(l: Language): Slot {
    if l.Rust? then Element(8, 0) else Slot(0, 8)
  }

  function ParameterSlot(l: Language): Slot {
    if l.Rust? then Element(4, 0) else Slot(0, 4)
  }

  // ---------------------------------------------------------------------------------------
  // Getters

  /** The client behind a pointer; anything but a capability of the message is a nil client. */
  function Client(caps: seq<nat>, p: Ptr): CapRef {
    if p.CapPtr? && p.index < |caps| then Cap(caps[p.index]) else Null
  }

  function Which(l: Language, s: Struct): nat {
    Get(s.data, TagSlot(l))
  }

  /** The expression a reader of language `l` finds. A literal is its 64 bits. */
  function ReadExpr(l: Language, caps: seq<nat>, s: Struct): Expr<nat>
    decreases s, 1
  {
    var tag := Which(l, s);
    match tag
    case 0 => Literal(Get(s.data, LiteralSlot(l)))
    case 1 => PreviousResult(Client(caps, s.ptr0))
    case 2 => Parameter(Get(s.data, ParameterSlot(l)))
    case 3 => Call(Client(caps, s.ptr0), if s.ptr1.ListPtr? then ReadAll(l, caps, s.ptr1.elems) else [])
    case _ => Unknown(tag)
  }

  function ReadAll(l: Language, caps: seq<nat>, elems: seq<Struct>): seq<Expr<nat>>
    decreases elems, 0
  {
    if elems == [] then [] else [ReadExpr(l, caps, elems[0])] + ReadAll(l, caps, elems[1..])
  }

  // ---------------------------------------------------------------------------------------
  // Setters

  /** A struct under construction and its message's capability table. */
  datatype Build = Build(s: Struct, caps: seq<nat>)

  datatype Setter =
    | SetLiteral(bits: nat)
    | SetPreviousResult(v: CapRef)
    | SetParameter(k: nat)
    | SetCall
    | SetFunction(f: CapRef)
    | SetParams(elems: seq<Struct>)

  /** What a setter's argument type allows. A TypeScript or Rust client cannot be nil. */
  predicate ValidSetter(l: Language, x: Setter) {
    match x
    case SetLiteral(bits) => bits < Limit(8)
    case SetParameter(k) => k < Limit(4)
    case SetPreviousResult(v) => l.Go? || v.Cap?
    case SetFunction(f) => l.Go? || f.Cap?
    case _ => true
  }

  function SetTag(l: Language, s: Struct, tag: nat): Struct {
    s.(data := Put(s.data, TagSlot(l), tag))
  }

  /** Store a client in pointer 0: every call adds an entry to the capability table. */
  function SetClient(b: Build, v: CapRef): Build {
    match v
    case Null => b.(s := b.s.(ptr0 := NullPtr))
    case Cap(id) => Build(b.s.(ptr0 := CapPtr(|b.caps|)), b.caps + [id])
  }

  /** One setter call (go/calculator/calculator.capnp.go:228-319, ts/src/calculator.capnp.ts:14-71,
      rust/src/schema/calculator_capnp.rs:238-258, 425-439). */
  function ApplySetter(l: Language, b: Build, x: Setter): (r: Build)
    ensures b.caps <= r.caps
  {
    match x
    case SetLiteral(bits) =>
      var s := SetTag(l, b.s, 0);
      b.(s := s.(data := Put(s.data, LiteralSlot(l), bits)))
    case SetPreviousResult(v) => SetClient(b.(s := SetTag(l, b.s, 1)), v)
    case SetParameter(k) =>
      var s := SetTag(l, b.s, 2);
      b.(s := s.(data := Put(s.data, ParameterSlot(l), k)))
    case SetCall =>
      var s := SetTag(l, b.s, 3);
      b.(s := if l.Rust? then s.(ptr0 := NullPtr, ptr1 := NullPtr) else s)
    case SetFunction(f) => SetClient(b, f)
    case SetParams(elems) => b.(s := b.s.(ptr1 := ListPtr(elems)))
  }

  /** Which bytes each setter writes, in every language: the scalar members share the bytes from 0 on,
      and the tag, least significant byte first, is in bytes 8 and 9. */
  lemma SetterBytes(l: Language, b: Build, x: Setter)
    ensures var d, d' := b.s.data, ApplySetter(l, b, x).s.data;
            match x
            case SetLiteral(bits) => d' == Encode(bits, 8) + [0, 0] + d[10..]
            case SetPreviousResult(_) => d' == d[..8] + [1, 0] + d[10..]
            case SetParameter(k) => d' == Encode(k, 4) + d[4..8] + [2, 0] + d[10..]
            case SetCall => d' == d[..8] + [3, 0] + d[10..]
            case SetFunction(_) => d' == d
            case SetParams(_) => d' == d
  {
    var d := b.s.data;
    match x
    case SetLiteral(bits) =>
      TagBytes(l, b.s, 0);
      ScalarBytes(d, bits, [0, 0]);
    case SetPreviousResult(_) => TagBytes(l, b.s, 1);
    case SetParameter(k) =>
      TagBytes(l, b.s, 2);
      ScalarBytes(d, k, [2, 0]);
    case SetCall => TagBytes(l, b.s, 3);
    case _ =>
  }

  /** A scalar written after the tag. */
  lemma ScalarBytes(d: Data, v: nat, tag: seq<Byte>)
    requires |tag| == 2
    ensures var tagged := d[..8] + tag + d[10..];
            && Put(tagged, Slot(0, 8), v) == Encode(v, 8) + tag + d[10..]
            && Put(tagged, Slot(0, 4), v) == Encode(v, 4) + d[4..8] + tag + d[10..]
  {
    var tagged := d[..8] + tag + d[10..];
    assert tagged[8..] == tag + d[10..] && tagged[4..] == d[4..8] + tag + d[10..];
  }

  lemma TagBytes(l: Language, s: Struct, tag: nat)
    requires tag < 4
    ensures SetTag(l, s, tag).data == s.data[..8] + [tag, 0] + s.data[10..]
  {
    assert Encode(0, 1) == [0] + Encode(0, 0);
    assert Encode(tag, 2) == [tag] + Encode(0, 1);
  }

  /** Which bytes and pointers a reader of any language looks at. */
  lemma ReaderBytes(reader: Language, caps: seq<nat>, s: Struct)
    ensures var tag := s.data[8] as int + 256 * s.data[9] as int;
            && Which(reader, s) == tag
            && (tag == 0 ==> ReadExpr(reader, caps, s) == Literal(Decode(s.data[..8])))
            && (tag == 2 ==> ReadExpr(reader, caps, s) == Parameter(Decode(s.data[..4])))
            && (tag > 3 ==> ReadExpr(reader, caps, s) == Unknown(tag))
            && var client := if s.ptr0.CapPtr? && s.ptr0.index < |caps| then Cap(caps[s.ptr0.index]) else Null;
            && (tag == 1 ==> ReadExpr(reader, caps, s) == PreviousResult(client))
            && (tag == 3 ==>
                  var elems := if s.ptr1.ListPtr? then s.ptr1.elems else [];
                  var e := ReadExpr(reader, caps, s);
                  && e.Call? && e.f == client && |e.args| == |elems|
                  && forall i :: 0 <= i < |elems| ==> e.args[i] == ReadExpr(reader, caps, elems[i]))
  {
    if s.ptr1.ListPtr? {
      ReadAllAt(reader, caps, s.ptr1.elems);
    }
    var two := s.data[8..10];
    assert two[1..] == [s.data[9]];
    assert Decode([s.data[9]]) == s.data[9] + 256 * Decode([]);
  }

  lemma {:induction false} ReadAllAt(l: Language, caps: seq<nat>, elems: seq<Struct>)
    ensures var r := ReadAll(l, caps, elems);
            |r| == |elems| && forall i :: 0 <= i < |elems| ==> r[i] == ReadExpr(l, caps, elems[i])
  {
    if elems != [] {
      ReadAllAt(l, caps, elems[1..]);
      assert forall i :: 0 < i < |elems| ==> elems[i] == elems[1..][i - 1];
    }
  }

  /** What a setter's argument may be, in numbers. */
  lemma ValidSetterExactly(l: Language, x: Setter)
    ensures ValidSetter(l, x) <==>
            && (x.SetLiteral? ==> x.bits < 0x1_0000_0000_0000_0000)
            && (x.SetParameter? ==> x.k < 0x1_0000_0000)
            && (x == SetPreviousResult(Null) || x == SetFunction(Null) ==> l.Go?)
  {
    Limits();
  }

  // ---------------------------------------------------------------------------------------
  // Any sequence of setters

  datatype Step = Step(l: Language, x: Setter)

  predicate ValidSteps(steps: seq<Step>) {
    forall i :: 0 <= i < |steps| ==> ValidSetter(steps[i].l, steps[i].x)
  }

  function Run(b: Build, steps: seq<Step>): (r: Build)
    ensures b.caps <= r.caps
  {
    if steps == [] then b
    else
      var n := |steps| - 1;
      ApplySetter(steps[n].l, Run(b, steps[..n]), steps[n].x)
  }

  predicate SetsTag(x: Setter) {
    !x.SetFunction? && !x.SetParams?
  }

  function TagOf(x: Setter): nat
    requires SetsTag(x)
  {
    match x
    case SetLiteral(_) => 0
    case SetPreviousResult(_) => 1
    case SetParameter(_) => 2
    case SetCall => 3
  }

  /** The last setter of a union member, if there was one. */
  function LastMember(steps: seq<Step>): (r: Option<Setter>)
    ensures r.Some? ==> SetsTag(r.value)
  {
    if steps == [] then None
    else
      var x := steps[|steps| - 1].x;
      if SetsTag(x) then Some(x) else LastMember(steps[..|steps| - 1])
  }

  /** The client last put into pointer 0: by either of the two setters that share it, or by Rust's
      `init_call`, which clears it; Go's `SetCall` and TypeScript's `initCall` leave it. */
  function LastClient(steps: seq<Step>, initial: CapRef): CapRef {
    if steps == [] then initial
    else
      var Step(l, x) := steps[|steps| - 1];
      match x
      case SetPreviousResult(v) => v
      case SetFunction(f) => f
      case SetCall => if l.Rust? then Null else LastClient(steps[..|steps| - 1], initial)
      case _ => LastClient(steps[..|steps| - 1], initial)
  }

  function LastParams(steps: seq<Step>, initial: Ptr): Ptr {
    if steps == [] then initial
    else
      var Step(l, x) := steps[|steps| - 1];
      match x
      case SetParams(elems) => ListPtr(elems)
      case SetCall => if l.Rust? then NullPtr else LastParams(steps[..|steps| - 1], initial)
      case _ => LastParams(steps[..|steps| - 1], initial)
  }

  /** Pointer 0 names an existing entry of the capability table, if any. */
  predicate InTable(b: Build) {
    b.s.ptr0.CapPtr? ==> b.s.ptr0.index < |b.caps|
  }

  lemma SetTagReads(l: Language, reader: Language, s: Struct, tag: nat)
    requires tag < 4
    ensures Which(reader, SetTag(l, s, tag)) == tag
  {
    Limits();
    GetPut(s.data, TagSlot(l), tag);
  }

  /** A literal is read back by every language, whatever the struct held. */
  lemma LiteralReads(l: Language, reader: Language, b: Build, bits: nat, caps: seq<nat>)
    requires bits < Limit(8)
    ensures var s := ApplySetter(l, b, SetLiteral(bits)).s;
            Which(reader, s) == 0 && ReadExpr(reader, caps, s) == Literal(bits)
  {
    var s := SetTag(l, b.s, 0);
    SetTagReads(l, reader, b.s, 0);
    GetPutOther(s.data, LiteralSlot(l), bits, TagSlot(reader));
    GetPut(s.data, LiteralSlot(l), bits);
    assert LiteralSlot(l) == LiteralSlot(reader);
  }

  lemma ParameterReads(l: Language, reader: Language, b: Build, k: nat, caps: seq<nat>)
    requires k < Limit(4)
    ensures var s := ApplySetter(l, b, SetParameter(k)).s;
            Which(reader, s) == 2 && ReadExpr(reader, caps, s) == Parameter(k)
  {
    var s := SetTag(l, b.s, 2);
    SetTagReads(l, reader, b.s, 2);
    GetPutOther(s.data, ParameterSlot(l), k, TagSlot(reader));
    GetPut(s.data, ParameterSlot(l), k);
    assert ParameterSlot(l) == ParameterSlot(reader);
  }

  /** What a reader finds in the data bytes after the last member was set. */
  ghost predicate MemberReads(reader: Language, caps: seq<nat>, s: Struct, x: Setter)
    requires SetsTag(x)
  {
    && Which(reader, s) == TagOf(x)
    && (x.SetLiteral? ==> ReadExpr(reader, caps, s) == Literal(x.bits))
    && (x.SetParameter? ==> ReadExpr(reader, caps, s) == Parameter(x.k))
  }

  lemma MemberSet(l: Language, reader: Language, b: Build, x: Setter, caps: seq<nat>)
    requires SetsTag(x) && ValidSetter(l, x)
    ensures MemberReads(reader, caps, ApplySetter(l, b, x).s, x)
  {
    match x
    case SetLiteral(bits) => LiteralReads(l, reader, b, bits, caps);
    case SetPreviousResult(v) => SetTagReads(l, reader, b.s, 1);
    case SetParameter(k) => ParameterReads(l, reader, b, k, caps);
    case SetCall => SetTagReads(l, reader, b.s, 3);
  }

  lemma {:induction false} DataRefinement(b: Build, steps: seq<Step>, reader: Language, caps: seq<nat>)
    requires ValidSteps(steps)
    ensures var s := Run(b, steps).s;
            match LastMember(steps)
            case None => s.data == b.s.data
            case Some(x) => MemberReads(reader, caps, s, x)
  {
    if steps != [] {
      var n := |steps| - 1;
      var before, l, x := Run(b, steps[..n]), steps[n].l, steps[n].x;
      if SetsTag(x) {
        MemberSet(l, reader, before, x, caps);
      } else {
        DataRefinement(b, steps[..n], reader, caps);
        assert ApplySetter(l, before, x).s.data == before.s.data;
      }
    }
  }

  lemma {:induction false} PointerRefinement(b: Build, steps: seq<Step>)
    requires InTable(b)
    ensures var r := Run(b, steps);
            && InTable(r)
            && Client(r.caps, r.s.ptr0) == LastClient(steps, Client(b.caps, b.s.ptr0))
            && r.s.ptr1 == LastParams(steps, b.s.ptr1)
  {
    if steps != [] {
      var n := |steps| - 1;
      PointerRefinement(b, steps[..n]);
      PointersSet(steps[n].l, Run(b, steps[..n]), steps[n].x);
    }
  }

  lemma PointersSet(l: Language, b: Build, x: Setter)
    requires InTable(b)
    ensures var r := ApplySetter(l, b, x);
            && InTable(r)
            && Client(r.caps, r.s.ptr0) ==
               (match x
                case SetPreviousResult(v) => v
                case SetFunction(f) => f
                case _ => if x.SetCall? && l.Rust? then Null else Client(b.caps, b.s.ptr0))
            && r.s.ptr1 ==
               (match x
                case SetParams(elems) => ListPtr(elems)
                case _ => if x.SetCall? && l.Rust? then NullPtr else b.s.ptr1)
  {
  }

  /** Union refinement: after any setters of any languages, a reader of any language finds the tag
      of the last member set and, for a scalar member, its value; pointers hold what was last
      stored in them, whichever member that was for. */
  lemma UnionRefinement(b: Build, steps: seq<Step>, reader: Language)
    requires ValidSteps(steps) && InTable(b)
    ensures var r := Run(b, steps);
            && (match LastMember(steps)
                case None => r.s.data == b.s.data
                case Some(SetLiteral(bits)) => ReadExpr(reader, r.caps, r.s) == Literal(bits)
                case Some(SetPreviousResult(_)) => Which(reader, r.s) == 1
                case Some(SetParameter(k)) => ReadExpr(reader, r.caps, r.s) == Parameter(k)
                case Some(SetCall) => Which(reader, r.s) == 3)
            && Client(r.caps, r.s.ptr0) == LastClient(steps, Client(b.caps, b.s.ptr0))
            && r.s.ptr1 == LastParams(steps, b.s.ptr1)
  {
    DataRefinement(b, steps, reader, Run(b, steps).caps);
    PointerRefinement(b, steps);
  }

  // ---------------------------------------------------------------------------------------
  // Whole trees

  /** The expression can be written with language `l`'s setters. */
  predicate Expressible(l: Language, e: Expr<nat>)
    decreases e, 1
  {
    match e
    case Literal(bits) => bits < Limit(8)
    case PreviousResult(v) => l.Go? || v.Cap?
    case Parameter(k) => k < Limit(4)
    case Call(_, args) => AllExpressible(l, args)
    case Unknown(_) => false
  }

  predicate AllExpressible(l: Language, args: seq<Expr<nat>>)
    decreases args, 0
  {
    args != [] ==> Expressible(l, args[0]) && AllExpressible(l, args[1..])
  }

  /** Everything of the five known kinds can be written whose numbers fit their fields and whose
      results are not nil, unless the language is Go. */
  lemma ExpressibleExactly(l: Language, e: Expr<nat>)
    ensures Expressible(l, e) <==>
            match e
            case Literal(bits) => bits < 0x1_0000_0000_0000_0000
            case PreviousResult(v) => v.Null? ==> l.Go?
            case Parameter(k) => k < 0x1_0000_0000
            case Call(_, args) => forall i :: 0 <= i < |args| ==> Expressible(l, args[i])
            case Unknown(_) => false
  {
    Limits();
    if e.Call? {
      AllExpressibleAt(l, e.args);
    }
  }

  lemma {:induction false} AllExpressibleAt(l: Language, args: seq<Expr<nat>>)
    ensures AllExpressible(l, args) <==> forall i :: 0 <= i < |args| ==> Expressible(l, args[i])
  {
    if args != [] {
      AllExpressibleAt(l, args[1..]);
      assert forall i :: 0 < i < |args| ==> args[i] == args[1..][i - 1];
    }
  }

  /** A program that builds expressions in language `l`. The setters let it choose whether to store
      a nil function (in Go; the others have no nil client) and whether to make an empty list. */
  datatype Writer = Writer(l: Language, nilFunctions: bool, emptyLists: bool) {
    predicate StoresFunction(f: CapRef) {
      f.Cap? || (l.Go? && nilFunctions)
    }

    predicate StoresParams(args: seq<Expr<nat>>) {
      args != [] || emptyLists
    }
  }

  /** Make the struct a call and store its function, if this writer does. */
  function BeginCall(wr: Writer, b: Build, f: CapRef): (r: Build)
    ensures b.caps <= r.caps
  {
    var call := ApplySetter(wr.l, b, SetCall);
    if wr.StoresFunction(f) then ApplySetter(wr.l, call, SetFunction(f)) else call
  }

  /** Build `e` into a struct: set the member; for a call, make the argument list, if this writer
      does, and build its elements. */
  function BuildExpr(wr: Writer, b: Build, e: Expr<nat>): (r: Build)
    ensures b.caps <= r.caps
    decreases e, 1
  {
    match e
    case Literal(bits) => ApplySetter(wr.l, b, SetLiteral(bits))
    case PreviousResult(v) => ApplySetter(wr.l, b, SetPreviousResult(v))
    case Parameter(k) => ApplySetter(wr.l, b, SetParameter(k))
    case Call(f, args) =>
      var named := BeginCall(wr, b, f);
      var (elems, caps) := BuildAll(wr, named.caps, args);
      if wr.StoresParams(args) then ApplySetter(wr.l, named.(caps := caps), SetParams(elems)) else named
    case Unknown(_) => b
  }

  /** Build the elements of a new list, each into a zeroed struct. */
  function BuildAll(wr: Writer, caps: seq<nat>, args: seq<Expr<nat>>): (r: (seq<Struct>, seq<nat>))
    ensures caps <= r.1
    decreases args, 0
  {
    if args == [] then ([], caps)
    else
      var first := BuildExpr(wr, Build(ZERO, caps), args[0]);
      var (elems, caps') := BuildAll(wr, first.caps, args[1..]);
      ([first.s] + elems, caps')
  }

  /** The arguments behind a pointer. */
  function Params(reader: Language, final: seq<nat>, p: Ptr): seq<Expr<nat>> {
    if p.ListPtr? then ReadAll(reader, final, p.elems) else []
  }

  /** What a call reads as: where the writer stores nothing and the language clears nothing, the
      struct's earlier pointers show through. */
  function Leftover(wr: Writer, reader: Language, final: seq<nat>, prior: Struct, e: Expr<nat>): Expr<nat> {
    if !e.Call? || wr.l.Rust? then e
    else
      Call(if wr.StoresFunction(e.f) then e.f else Client(final, prior.ptr0),
           if wr.StoresParams(e.args) then e.args else Params(reader, final, prior.ptr1))
  }

  /** Reading back a built tree. The starting struct may hold anything; the capability table may
      have grown since. */
  lemma {:induction false} BuildReads(wr: Writer, reader: Language, b: Build, e: Expr<nat>, final: seq<nat>)
    requires Expressible(wr.l, e) && BuildExpr(wr, b, e).caps <= final
    ensures ReadExpr(reader, final, BuildExpr(wr, b, e).s) == Leftover(wr, reader, final, b.s, e)
    decreases e, 2
  {
    match e
    case Literal(bits) => LiteralReads(wr.l, reader, b, bits, final);
    case PreviousResult(v) => PreviousResultReads(wr.l, reader, b, v, final);
    case Parameter(k) => ParameterReads(wr.l, reader, b, k, final);
    case Call(f, args) => BuildCallReads(wr, reader, b, f, args, final);
  }

  lemma {:induction false} BuildCallReads(wr: Writer, reader: Language, b: Build, f: CapRef,
                                          args: seq<Expr<nat>>, final: seq<nat>)
    requires AllExpressible(wr.l, args) && BuildExpr(wr, b, Call(f, args)).caps <= final
    ensures ReadExpr(reader, final, BuildExpr(wr, b, Call(f, args)).s) ==
            Leftover(wr, reader, final, b.s, Call(f, args))
    decreases args, 1
  {
    var named := BeginCall(wr, b, f);
    BuildAllReads(wr, reader, named.caps, args, final);
    BeginCallReads(wr, reader, b, f, final);
    CallReads(reader, named.s, CallParams(wr, b, f, args), final);
    CallStruct(wr, b, f, args);
  }

  /** Pointer 1 of a built call. */
  function CallParams(wr: Writer, b: Build, f: CapRef, args: seq<Expr<nat>>): Ptr {
    var named := BeginCall(wr, b, f);
    if wr.StoresParams(args) then ListPtr(BuildAll(wr, named.caps, args).0) else named.s.ptr1
  }

  lemma CallStruct(wr: Writer, b: Build, f: CapRef, args: seq<Expr<nat>>)
    ensures BuildExpr(wr, b, Call(f, args)).s == BeginCall(wr, b, f).s.(ptr1 := CallParams(wr, b, f, args))
  {
  }

  lemma PreviousResultReads(l: Language, reader: Language, b: Build, v: CapRef, final: seq<nat>)
    requires ApplySetter(l, b, SetPreviousResult(v)).caps <= final
    ensures ReadExpr(reader, final, ApplySetter(l, b, SetPreviousResult(v)).s) == PreviousResult(v)
  {
    SetTagReads(l, reader, b.s, 1);
  }

  /** The tag and the pointers after the call was begun. */
  lemma BeginCallReads(wr: Writer, reader: Language, b: Build, f: CapRef, final: seq<nat>)
    requires BeginCall(wr, b, f).caps <= final
    ensures var s := BeginCall(wr, b, f).s;
            && Which(reader, s) == 3
            && Client(final, s.ptr0) ==
               (if wr.l.Rust? || wr.StoresFunction(f) then f else Client(final, b.s.ptr0))
            && s.ptr1 == if wr.l.Rust? then NullPtr else b.s.ptr1
  {
    SetTagReads(wr.l, reader, b.s, 3);
  }

  lemma CallReads(reader: Language, s: Struct, ptr1: Ptr, final: seq<nat>)
    requires Which(reader, s) == 3
    ensures ReadExpr(reader, final, s.(ptr1 := ptr1)) == Call(Client(final, s.ptr0), Params(reader, final, ptr1))
  {
  }

  lemma {:induction false} BuildAllReads(wr: Writer, reader: Language, caps: seq<nat>, args: seq<Expr<nat>>,
                                         final: seq<nat>)
    requires AllExpressible(wr.l, args) && BuildAll(wr, caps, args).1 <= final
    ensures ReadAll(reader, final, BuildAll(wr, caps, args).0) == args
    decreases args, 0
  {
    if args != [] {
      var first := BuildExpr(wr, Build(ZERO, caps), args[0]);
      var (elems, caps') := BuildAll(wr, first.caps, args[1..]);
      BuildReads(wr, reader, Build(ZERO, caps), args[0], final);
      BuildAllReads(wr, reader, first.caps, args[1..], final);
      assert ([first.s] + elems)[1..] == elems;
      assert args == [args[0]] + args[1..];
    }
  }

  /** Every expression tree built in a fresh struct by any writer is read back by any language as
      the same tree. */
  lemma TreeRoundTrip(wr: Writer, reader: Language, caps: seq<nat>, e: Expr<nat>)
    requires Expressible(wr.l, e)
    ensures var r := BuildExpr(wr, Build(ZERO, caps), e);
            ReadExpr(reader, r.caps, r.s) == e
  {
    BuildReads(wr, reader, Build(ZERO, caps), e, BuildExpr(wr, Build(ZERO, caps), e).caps);
  }

  /** A client or a non-empty argument list of the struct's earlier life shows through. */
  predicate ShowsThrough(wr: Writer, prior: Struct, e: Expr<nat>) {
    && e.Call? && !wr.l.Rust?
    && (|| (!wr.StoresFunction(e.f) && prior.ptr0.CapPtr?)
        || (!wr.StoresParams(e.args) && prior.ptr1.ListPtr? && prior.ptr1.elems != []))
  }

  /** Over a struct that was used before, a tree reads back exactly when nothing shows through: the
      root is a call written in Go or TypeScript, and what its writer does not store was set. */
  lemma ReuseRoundTrip(wr: Writer, reader: Language, b: Build, e: Expr<nat>)
    requires Expressible(wr.l, e) && InTable(b)
    ensures var r := BuildExpr(wr, b, e);
            ReadExpr(reader, r.caps, r.s) == e <==> !ShowsThrough(wr, b.s, e)
  {
    BuildReads(wr, reader, b, e, BuildExpr(wr, b, e).caps);
  }

  /** For a writer that stores whatever its language lets it, only TypeScript's missing nil client
      is left. */
  lemma ThoroughRoundTrip(l: Language, reader: Language, b: Build, e: Expr<nat>)
    requires Expressible(l, e) && InTable(b)
    ensures var r := BuildExpr(Writer(l, true, true), b, e);
            ReadExpr(reader, r.caps, r.s) == e <==>
            (l.TypeScript? && e.Call? && e.f.Null? ==> !b.s.ptr0.CapPtr?)
  {
    ReuseRoundTrip(Writer(l, true, true), reader, b, e);
  }

  /** A concrete case: `setPreviousResult(v)` and then a call without a function reads as a call of
      `v`, in TypeScript from any writer and in Go from one that skips the nil function. */
  lemma LeftoverExample(v: nat, emptyLists: bool)
    ensures var used := ApplySetter(TypeScript, Build(ZERO, []), SetPreviousResult(Cap(v)));
            var r := BuildExpr(Writer(TypeScript, true, emptyLists), used, Call(Null, []));
            ReadExpr(Go, r.caps, r.s) == Call(Cap(v), [])
    ensures var used := ApplySetter(Go, Build(ZERO, []), SetPreviousResult(Cap(v)));
            var r := BuildExpr(Writer(Go, false, emptyLists), used, Call(Null, []));
            ReadExpr(Go, r.caps, r.s) == Call(Cap(v), [])
  {
    var ts := ApplySetter(TypeScript, Build(ZERO, []), SetPreviousResult(Cap(v)));
    BuildReads(Writer(TypeScript, true, emptyLists), Go, ts, Call(Null, []), ts.caps);
    var go := ApplySetter(Go, Build(ZERO, []), SetPreviousResult(Cap(v)));
    BuildReads(Writer(Go, false, emptyLists), Go, go, Call(Null, []), go.caps);
  }

  /** Another: a call of `g` without arguments, over a call of `f` with one, by a writer that makes
      no empty list, reads as a call of `g` with that argument. */
  lemma StaleListExample(l: Language, f: nat, g: nat, k: nat)
    requires !l.Rust? && k < Limit(4)
    ensures var wr := Writer(l, true, false);
            var used := BuildExpr(wr, Build(ZERO, []), Call(Cap(f), [Parameter(k)]));
            var r := BuildExpr(wr, used, Call(Cap(g), []));
            ReadExpr(Go, r.caps, r.s) == Call(Cap(g), [Parameter(k)])
  {
    var wr := Writer(l, true, false);
    var args: seq<Expr<nat>> := [Parameter(k)];
    assert args[1..] == [];
    var used := BuildExpr(wr, Build(ZERO, []), Call(Cap(f), args));
    var r := BuildExpr(wr, used, Call(Cap(g), []));
    BuildReads(wr, Go, used, Call(Cap(g), []), r.caps);
    BuildAllReads(wr, Go, BeginCall(wr, Build(ZERO, []), Cap(f)).caps, args, r.caps);
  }

  // ---------------------------------------------------------------------------------------
  // In place

  /** A struct whose setters write its bytes and pointers in place. */
  class ExpressionBuilder {
    const section: DataSection
    var ptr0: Ptr
    var ptr1: Ptr
    var caps: seq<nat>

    ghost predicate Valid()
      reads this, section
    {
      section.data.Length == 16
    }

    ghost function View(): Build
      requires Valid()
      reads this, section, section.data
    {
      Build(Struct(section.data[..], ptr0, ptr1), caps)
    }

    constructor (caps: seq<nat>)
      ensures Valid() && fresh(section) && fresh(section.data)
      ensures View() == Build(ZERO, caps)
    {
      var section := new DataSection(16);
      this.section := section;
      ptr0, ptr1 := NullPtr, NullPtr;
      this.caps := caps;
      assert seq(16, _ => 0 as Byte) == ZERO_DATA;
    }

    method AddClient(v: CapRef)
      requires Valid()
      modifies this
      ensures Valid() && View() == SetClient(old(View()), v)
    {
      if v.Null? {
        ptr0 := NullPtr;
      } else {
        ptr0 := CapPtr(|caps|);
        caps := caps + [v.id];
      }
    }

    method Set(l: Language, x: Setter)
      requires Valid()
      modifies this, section.data
      ensures Valid() && View() == ApplySetter(l, old(View()), x)
    {
      match x
      case SetLiteral(bits) =>
        section.Set(TagSlot(l), 0);
        section.Set(LiteralSlot(l), bits);
      case SetPreviousResult(v) =>
        section.Set(TagSlot(l), 1);
        AddClient(v);
      case SetParameter(k) =>
        section.Set(TagSlot(l), 2);
        section.Set(ParameterSlot(l), k);
      case SetCall =>
        section.Set(TagSlot(l), 3);
        if l.Rust? {
          ptr0, ptr1 := NullPtr, NullPtr;
        }
      case SetFunction(f) => AddClient(f);
      case SetParams(elems) => ptr1 := ListPtr(elems);
    }
  }
}
