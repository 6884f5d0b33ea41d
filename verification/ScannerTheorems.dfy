/** The independently printed signatures, adapters and calls of the scanner agree. */
module ScannerTheorems {
  import opened Sequences
  import opened ScannerTypes
  import opened Scanner

  /** A first argument in front of arguments that fit. */
  lemma TypedAfter(x: Tok, p: Tok, xs: seq<Tok>, ps: seq<Tok>, scope: seq<Tok>, member: CppType)
    requires x.Arg? && p.Param? && Accepts(p.cpp, TypeOf(x.e, scope, member))
    requires WellTyped(xs, ps, scope, member)
    ensures WellTyped([x] + xs, [p] + ps, scope, member)
  {
  }

  // ----- Names -----

  ghost predicate DistinctArgs(args: seq<Argument>) {
    forall i, j :: 0 <= i < j < |args| ==> args[i].name != args[j].name
  }

  ghost predicate Named(args: seq<Argument>, n: string) {
    exists i :: 0 <= i < |args| && args[i].name == n
  }

  /** A list that declares one parameter for each argument, under its name. */
  ghost predicate Lists(ps: seq<Tok>, args: seq<Argument>) {
    |ps| == |args| && forall k :: 0 <= k < |ps| ==> ps[k].Param? && ps[k].name == args[k].name
  }

  lemma NamesOfList(ps: seq<Tok>, args: seq<Argument>)
    requires Lists(ps, args)
    ensures DistinctNames(ps) <==> DistinctArgs(args)
    ensures forall n :: Declares(ps, n) <==> Named(args, n)
  {
    assert forall k :: 0 <= k < |ps| ==> ps[k].name == args[k].name;
    forall n ensures Declares(ps, n) <==> Named(args, n) {
      if Named(args, n) {
        var i :| 0 <= i < |args| && args[i].name == n;
        assert ps[i].name == n;
      }
    }
  }

  /** Declarations of the function's own, then one for each argument. */
  lemma HeadedNames(head: seq<Tok>, ps: seq<Tok>, args: seq<Argument>)
    requires DistinctNames(head) && Lists(ps, args)
    ensures DistinctNames(head + ps) <==> DistinctArgs(args) && forall k :: 0 <= k < |head| ==> !Named(args, head[k].name)
    ensures forall n :: Declares(head + ps, n) <==> Declares(head, n) || Named(args, n)
  {
    NamesOfList(ps, args);
    DistinctConcat(head, ps);
    forall n ensures Declares(head + ps, n) <==> Declares(head, n) || Named(args, n) {
      DeclaresConcat(head, ps, n);
    }
    if forall k :: 0 <= k < |head| ==> !Named(args, head[k].name) {
      forall n ensures !(Declares(head, n) && Declares(ps, n)) {
      }
    } else {
      var k :| 0 <= k < |head| && Named(args, head[k].name);
      assert Declares(head, head[k].name) && Declares(ps, head[k].name);
    }
  }

  /** The locals that stand for the arrays, declared in the body. */
  function Locals(names: seq<string>): seq<Tok> {
    seq(|names|, i requires 0 <= i < |names| => Param(WlArray, DataName(names[i])))
  }

  lemma LocalsNames(names: seq<string>)
    ensures NoDup(names) ==> DistinctNames(Locals(names))
    ensures forall n :: Declares(Locals(names), n) <==> exists m :: m in names && DataName(m) == n
  {
    var ls := Locals(names);
    if NoDup(names) {
      forall i, j | 0 <= i < j < |ls| ensures ls[i].name != ls[j].name {
        if ls[i].name == ls[j].name {
          DataNameInjective(names[i], names[j]);
        }
      }
    }
    forall n ensures Declares(ls, n) <==> exists m :: m in names && DataName(m) == n {
      if Declares(ls, n) {
        var k :| 0 <= k < |ls| && ls[k].name == n;
        assert names[k] in names;
      }
      if m :| m in names && DataName(m) == n {
        var k :| 0 <= k < |names| && names[k] == m;
        assert ls[k].name == n;
      }
    }
  }

  /** Parameters and array locals in one scope. */
  lemma WithLocals(ps: seq<Tok>, names: seq<string>)
    requires NoDup(names)
    ensures DistinctNames(ps + Locals(names)) <==>
              DistinctNames(ps) && forall m :: m in names ==> !Declares(ps, DataName(m))
  {
    var ls := Locals(names);
    DistinctConcat(ps, ls);
    LocalsNames(names);
    if forall m :: m in names ==> !Declares(ps, DataName(m)) {
      forall n ensures !(Declares(ps, n) && Declares(ls, n)) {
      }
    } else {
      var m :| m in names && Declares(ps, DataName(m));
      assert Declares(ls, DataName(m));
    }
  }

  lemma LocalFound(ps: seq<Tok>, names: seq<string>, m: string)
    requires DistinctNames(ps + Locals(names)) && m in names
    ensures Lookup(ps + Locals(names), DataName(m)) == Some(WlArray)
  {
    var k :| 0 <= k < |names| && names[k] == m;
    assert (ps + Locals(names))[|ps| + k] == Locals(names)[k];
    LookupDistinct(ps + Locals(names), |ps| + k);
  }

  lemma ParamFound(ps: seq<Tok>, ls: seq<Tok>, k: nat)
    requires DistinctNames(ps + ls) && k < |ps|
    ensures ps[k].Param? && Lookup(ps + ls, ps[k].name) == Some(ps[k].cpp)
  {
    assert (ps + ls)[k] == ps[k];
    LookupDistinct(ps + ls, k);
  }

  /** No argument has the name of an array local; `newIds`: those of type new_id count. */
  ghost predicate LocalsFree(args: seq<Argument>, newIds: bool) {
    forall i, j :: 0 <= i < |args| && 0 <= j < |args| && args[i].ty.Array? && (newIds || !args[j].ty.NewId?) ==>
      args[j].name != DataName(args[i].name)
  }

  lemma DataNameEnds(x: string)
    ensures DataName(x) !in ["resource", "interface", "version"]
  {
    var d := DataName(x);
    assert d[|d| - 1] == 'a';
    assert "resource"[7] == 'e' && "interface"[8] == 'e' && "version"[6] == 'n';
  }

  // ----- Server side -----

  lemma {:induction false} ServerParamsUpTo(request: bool, args: seq<Argument>, n: nat, omit: bool)
    requires n <= |args|
    ensures |EventParamsUpTo(true, request, args, n, omit)| == n
    ensures forall k :: 0 <= k < n ==>
              EventParam(true, request, args[k], omit) == [EventParamsUpTo(true, request, args, n, omit)[k]]
  {
    if n == 0 {
    } else {
      ServerParamsUpTo(request, args, n - 1, omit);
    }
  }

  /** On the server every argument is one parameter. */
  lemma ServerParams(request: bool, args: seq<Argument>, omit: bool)
    ensures |EventParams(true, request, args, omit)| == |args|
    ensures forall k :: 0 <= k < |args| ==> EventParam(true, request, args[k], omit) == [EventParams(true, request, args, omit)[k]]
  {
    ServerParamsUpTo(request, args, |args|, omit);
  }

  /** The names visible in a server request handler, with its local r. */
  function HandlerScope(iface: string, e: Message): seq<Tok> {
    HandlerParams(true, iface, e) + [Param(ResourcePtr, "r")]
  }

  lemma ServerRequestArg(iface: string, e: Message, omit: bool, i: nat)
    requires e.request && DistinctNames(HandlerScope(iface, e)) && i < |e.args|
    ensures |EventParams(true, true, e.args, omit)| == |e.args|
    ensures var p := EventParams(true, true, e.args, omit)[i];
            p.Param? && Accepts(p.cpp, TypeOf(AdapterArg(e.args[i]).e, HandlerScope(iface, e), ResourcePtr))
  {
    ServerParams(true, e.args, omit);
    var scope, a := HandlerScope(iface, e), e.args[i];
    assert scope[i + 2] == HandlerParam(true, a);
    LookupDistinct(scope, i + 2);
    assert [EventParams(true, true, e.args, omit)[i]] == EventParam(true, true, a, omit);
  }

  lemma ConvertedArgsTyped(iface: string, e: Message, omit: bool)
    requires e.request && DistinctNames(HandlerScope(iface, e))
    ensures WellTyped(ConvertedArgs(e), EventParams(true, true, e.args, omit), HandlerScope(iface, e), ResourcePtr)
  {
    var xs, ps := ConvertedArgs(e), EventParams(true, true, e.args, omit);
    ServerParams(true, e.args, omit);
    forall i | 0 <= i < |xs|
      ensures xs[i].Arg? && ps[i].Param? && Accepts(ps[i].cpp, TypeOf(xs[i].e, HandlerScope(iface, e), ResourcePtr))
    {
      ServerRequestArg(iface, e, omit, i);
    }
  }

  /**
   The adapter of every server request is well typed: handler, virtual method
   and call have the same arity and order, and each argument converts to the
   declared Qt type, whether names are printed or omitted.
   */
  lemma ServerRequestAdapter(iface: string, e: Message, omit: bool, withResource: bool)
    requires e.request && DistinctNames(HandlerScope(iface, e))
    ensures |HandlerParams(true, iface, e)| == |e.args| + 2 && |Declared(true, e, omit, withResource)| == |e.args| + 1
    ensures Parse(Join(AdapterArgs(e))) == Some(AdapterArgs(e))
    ensures WellTyped(AdapterArgs(e), Declared(true, e, omit, withResource), HandlerScope(iface, e), ResourcePtr)
  {
    ParseJoin(AdapterArgs(e));
    ServerParams(true, e.args, omit);
    var scope := HandlerScope(iface, e);
    LookupDistinct(scope, |scope| - 1);
    ConvertedArgsTyped(iface, e, omit);
    TypedAfter(Arg(Name("r")), Param(ResourcePtr, Shown(omit, "resource")), ConvertedArgs(e),
               EventParams(true, true, e.args, omit), scope, ResourcePtr);
  }

  /** Argument names that do not clash with each other or with a name the handler already has. */
  ghost predicate NamesFree(e: Message) {
    && (forall i :: 0 <= i < |e.args| ==> e.args[i].name !in ["client", "resource", "r"])
    && (forall i, j :: 0 <= i < j < |e.args| ==> e.args[i].name != e.args[j].name)
  }

  /** The handler's names: two of its own in front, its local behind. */
  lemma ScopeNames(iface: string, e: Message)
    ensures var scope := HandlerScope(iface, e);
            && |scope| == |e.args| + 3 && (forall i :: 0 <= i < |scope| ==> scope[i].Param?)
            && scope[0].name == "client" && scope[1].name == "resource" && scope[|e.args| + 2].name == "r"
            && forall i :: 0 <= i < |e.args| ==> scope[i + 2].name == e.args[i].name
  {
  }

  lemma FreeIsDistinct(iface: string, e: Message)
    requires NamesFree(e)
    ensures DistinctNames(HandlerScope(iface, e))
  {
    var scope, n := HandlerScope(iface, e), |e.args|;
    ScopeNames(iface, e);
    forall i, j | 0 <= i < j < |scope| ensures scope[i].name != scope[j].name {
      if 2 <= i < n + 2 {
        assert scope[i].name == e.args[i - 2].name;
      }
      if 2 <= j < n + 2 {
        assert scope[j].name == e.args[j - 2].name;
      }
    }
  }

  lemma DistinctIsFree(iface: string, e: Message)
    requires DistinctNames(HandlerScope(iface, e))
    ensures NamesFree(e)
  {
    var scope, n := HandlerScope(iface, e), |e.args|;
    ScopeNames(iface, e);
    forall i | 0 <= i < n ensures e.args[i].name !in ["client", "resource", "r"] {
      assert scope[0].name != scope[i + 2].name && scope[1].name != scope[i + 2].name;
      assert scope[i + 2].name != scope[n + 2].name;
    }
    forall i, j | 0 <= i < j < n ensures e.args[i].name != e.args[j].name {
      assert scope[i + 2].name != scope[j + 2].name;
    }
  }

  /** Every server request adapter compiles, whatever its argument types, exactly when its names do not clash. */
  lemma ServerRequestAdapterIff(iface: string, e: Message, omit: bool, withResource: bool)
    requires e.request
    ensures (DistinctNames(HandlerScope(iface, e))
             && WellTyped(AdapterArgs(e), Declared(true, e, omit, withResource), HandlerScope(iface, e), ResourcePtr))
            <==> NamesFree(e)
  {
    if NamesFree(e) {
      FreeIsDistinct(iface, e);
      ServerRequestAdapter(iface, e, omit, withResource);
    } else if DistinctNames(HandlerScope(iface, e)) {
      DistinctIsFree(iface, e);
    }
  }

  lemma ServerLists(request: bool, args: seq<Argument>)
    ensures Lists(EventParams(true, request, args, false), args)
  {
    ServerParams(request, args, false);
    forall k | 0 <= k < |args|
      ensures EventParams(true, request, args, false)[k].Param? && EventParams(true, request, args, false)[k].name == args[k].name
    {
      assert [EventParams(true, request, args, false)[k]] == EventParam(true, request, args[k], false);
    }
  }

  lemma ServerEventForward(e: Message, omit: bool)
    requires !e.request && DistinctNames(Declared(true, e, false, false)) && !Declares(Declared(true, e, false, false), "m_resource")
    ensures WellTyped(ForwardArgs(e), Declared(true, e, omit, true), Declared(true, e, false, false), WlResourcePtr)
  {
    ServerParams(false, e.args, omit);
    ServerParams(false, e.args, false);
    var args, params, scope := ForwardArgs(e), Declared(true, e, omit, true), Declared(true, e, false, false);
    LookupDeclared(scope, "m_resource");
    forall i | 0 <= i < |args|
      ensures args[i].Arg? && params[i].Param? && Accepts(params[i].cpp, TypeOf(args[i].e, scope, WlResourcePtr))
    {
      if i > 0 {
        assert [scope[i - 1]] == EventParam(true, false, e.args[i - 1], false);
        assert [params[i]] == EventParam(true, false, e.args[i - 1], omit);
        LookupDistinct(scope, i - 1);
      }
    }
  }

  lemma ForwardScopeDistinctIff(e: Message)
    requires !e.request
    ensures var scope := Declared(true, e, false, false);
            && (DistinctNames(scope) <==> DistinctArgs(e.args))
            && (Declares(scope, "m_resource") <==> Named(e.args, "m_resource"))
  {
    ServerLists(false, e.args);
    assert Declared(true, e, false, false) == EventParams(true, false, e.args, false);
    NamesOfList(EventParams(true, false, e.args, false), e.args);
  }

  lemma ForwardHidden(e: Message, params: seq<Tok>, scope: seq<Tok>)
    requires Declares(scope, "m_resource")
    ensures !WellTyped(ForwardArgs(e), params, scope, WlResourcePtr)
  {
    LookupDeclared(scope, "m_resource");
    assert ForwardArgs(e)[0] == Arg(MemberHandle);
  }

  /** send_event without a resource calls the one with a resource correctly exactly when its names do not clash. */
  lemma ServerEventForwardIff(e: Message, omit: bool)
    requires !e.request
    ensures (DistinctNames(Declared(true, e, false, false))
             && WellTyped(ForwardArgs(e), Declared(true, e, omit, true), Declared(true, e, false, false), WlResourcePtr))
            <==> DistinctArgs(e.args) && !Named(e.args, "m_resource")
  {
    ForwardScopeDistinctIff(e);
    if Declares(Declared(true, e, false, false), "m_resource") {
      ForwardHidden(e, Declared(true, e, omit, true), Declared(true, e, false, false));
    } else if DistinctNames(Declared(true, e, false, false)) {
      ServerEventForward(e, omit);
    }
  }

  /** The C type in which the library passes an argument (Wayland specification, chapter 4, section "Wire Format"). */
  function WireType(server: bool, a: Argument): CppType {
    match a.ty
    case Int => Int32
    case Uint => Uint32
    case Fixed => WlFixed
    case String => ConstCharPtr
    case Object => ProxyType(server, a)
    case NewId => ProxyType(server, a)
    case Array => WlArrayPtr
    case FileDescriptor => Int32
    case Other(word) => Word(word)
  }

  /** Objects are resources on the server and proxies of their interface, if it is known, on the client. */
  function ProxyType(server: bool, a: Argument): CppType {
    if server then WlResourcePtr else if a.iface != "" then StructPtr(a.iface) else WlObjectPtr
  }

  /** The parameters of the library function that sends an event. */
  function LibrarySendParams(e: Message): seq<Tok> {
    [Param(WlResourcePtr, "")] + seq(|e.args|, i requires 0 <= i < |e.args| => Param(WireType(true, e.args[i]), ""))
  }

  /** What the sender declares: its parameters and the array locals. */
  function SendScope(e: Message): seq<Tok> {
    Declared(true, e, false, true) + Locals(ArrayNames(e.args))
  }

  lemma ServerEventCall(e: Message)
    requires !e.request && DistinctNames(SendScope(e))
    ensures WellTyped(SendArgs(e), LibrarySendParams(e), SendScope(e), WlResourcePtr)
  {
    var scope, params := SendScope(e), Declared(true, e, false, true);
    ServerParams(false, e.args, false);
    assert params[0] == Param(WlResourcePtr, "resource");
    ParamFound(params, Locals(ArrayNames(e.args)), 0);
    var xs, ps := SendArgs(e)[1..], LibrarySendParams(e)[1..];
    forall i | 0 <= i < |xs|
      ensures xs[i].Arg? && ps[i].Param? && Accepts(ps[i].cpp, TypeOf(xs[i].e, scope, WlResourcePtr))
    {
      ServerEventArg(e, i);
    }
    TypedAfter(Arg(Name("resource")), Param(WlResourcePtr, ""), xs, ps, scope, WlResourcePtr);
    assert SendArgs(e) == [Arg(Name("resource"))] + xs && LibrarySendParams(e) == [Param(WlResourcePtr, "")] + ps;
  }

  lemma ServerEventArg(e: Message, i: nat)
    requires !e.request && DistinctNames(SendScope(e)) && i < |e.args|
    ensures Accepts(WireType(true, e.args[i]), TypeOf(LibraryArg(e.args[i]).e, SendScope(e), WlResourcePtr))
  {
    ServerParams(false, e.args, false);
    var params, names := Declared(true, e, false, true), ArrayNames(e.args);
    assert [EventParams(true, false, e.args, false)[i]] == EventParam(true, false, e.args[i], false);
    assert params[i + 1] == EventParams(true, false, e.args, false)[i];
    ParamFound(params, Locals(names), i + 1);
    if e.args[i].ty.Array? {
      LocalFound(params, names, e.args[i].name);
    }
  }

  lemma SendParams(e: Message)
    requires !e.request
    ensures var params := Declared(true, e, false, true);
            && (DistinctNames(params) <==> DistinctArgs(e.args) && !Named(e.args, "resource"))
            && (forall n :: Declares(params, n) <==> n == "resource" || Named(e.args, n))
  {
    var head, ps := [Param(WlResourcePtr, "resource")], EventParams(true, false, e.args, false);
    assert Declared(true, e, false, true) == head + ps;
    ServerLists(false, e.args);
    HeadedNames(head, ps, e.args);
    assert head[0].name == "resource";
  }

  lemma ServerLocalsIff(args: seq<Argument>)
    ensures (forall m :: m in ArrayNames(args) ==> DataName(m) != "resource" && !Named(args, DataName(m)))
            <==> LocalsFree(args, true)
  {
    if LocalsFree(args, true) {
      forall m | m in ArrayNames(args) ensures DataName(m) != "resource" && !Named(args, DataName(m)) {
        DataNameEnds(m);
      }
    } else {
      var i, j :| 0 <= i < |args| && 0 <= j < |args| && args[i].ty.Array? && args[j].name == DataName(args[i].name);
      assert args[i].name in ArrayNames(args) && Named(args, DataName(args[i].name));
    }
  }

  lemma SendScopeDistinctIff(e: Message)
    requires !e.request
    ensures DistinctNames(SendScope(e)) <==> DistinctArgs(e.args) && !Named(e.args, "resource") && LocalsFree(e.args, true)
  {
    var params, names := Declared(true, e, false, true), ArrayNames(e.args);
    SendParams(e);
    if DistinctNames(params) {
      ArraysDeclaredUpTo(e.args, |e.args|);
      WithLocals(params, names);
      ServerLocalsIff(e.args);
    } else {
      DistinctConcat(params, Locals(names));
    }
  }

  /** An event is sent correctly exactly when the names of its arguments and of the array locals do not clash. */
  lemma ServerEventCallIff(e: Message)
    requires !e.request
    ensures (DistinctNames(SendScope(e)) && WellTyped(SendArgs(e), LibrarySendParams(e), SendScope(e), WlResourcePtr))
            <==> DistinctArgs(e.args) && !Named(e.args, "resource") && LocalsFree(e.args, true)
  {
    SendScopeDistinctIff(e);
    if DistinctNames(SendScope(e)) {
      ServerEventCall(e);
    }
  }

  // ----- Client events -----

  lemma {:induction false} ClientEventParamsUpTo(args: seq<Argument>, n: nat, omit: bool)
    requires n <= |args|
    ensures var ps := EventParamsUpTo(false, false, args, n, omit);
            && |ps| <= n
            && (|ps| == n <==> forall k :: 0 <= k < n ==> !args[k].Untyped())
            && (|ps| == n ==> forall k :: 0 <= k < n ==> EventParam(false, false, args[k], omit) == [ps[k]])
  {
    if n == 0 {
    } else {
      ClientEventParamsUpTo(args, n - 1, omit);
    }
  }

  /** A client event loses a parameter for each untyped new_id. */
  lemma ClientEventParams(args: seq<Argument>, omit: bool)
    ensures var ps := EventParams(false, false, args, omit);
            && (|ps| == |args| <==> forall k :: 0 <= k < |args| ==> !args[k].Untyped())
            && (|ps| == |args| ==> forall k :: 0 <= k < |args| ==> EventParam(false, false, args[k], omit) == [ps[k]])
  {
    ClientEventParamsUpTo(args, |args|, omit);
  }

  lemma ClientEventTypedIff(iface: string, e: Message, omit: bool)
    requires !e.request && DistinctNames(HandlerParams(false, iface, e))
    ensures WellTyped(ConvertedArgs(e), Declared(false, e, omit, false), HandlerParams(false, iface, e), VoidPtr)
            <==> forall k :: 0 <= k < |e.args| ==> !e.args[k].Untyped()
  {
    ClientEventParams(e.args, omit);
    var args, params, scope := ConvertedArgs(e), Declared(false, e, omit, false), HandlerParams(false, iface, e);
    if |params| == |args| {
      forall i | 0 <= i < |args|
        ensures args[i].Arg? && params[i].Param? && Accepts(params[i].cpp, TypeOf(args[i].e, scope, VoidPtr))
      {
        var a := e.args[i];
        assert scope[i + 2] == HandlerParam(false, a);
        LookupDistinct(scope, i + 2);
        assert [params[i]] == EventParam(false, false, a, omit);
      }
    }
  }

  lemma ClientHandlerDistinctIff(iface: string, e: Message)
    ensures DistinctNames(HandlerParams(false, iface, e)) <==>
              DistinctArgs(e.args) && !Named(e.args, "data") && !Named(e.args, "object")
  {
    var head := [Param(VoidPtr, "data"), Param(StructPtr(iface), "object")];
    var ps := HandlerParams(false, iface, e)[2..];
    assert HandlerParams(false, iface, e) == head + ps;
    HeadedNames(head, ps, e.args);
    assert head[0].name == "data" && head[1].name == "object";
  }

  /**
   The adapter of a client event is correct exactly when the event has no
   untyped new_id and its names do not clash with each other or with those of
   the handler.
   */
  lemma ClientEventAdapterIff(iface: string, e: Message, omit: bool)
    requires !e.request
    ensures (DistinctNames(HandlerParams(false, iface, e))
             && WellTyped(ConvertedArgs(e), Declared(false, e, omit, false), HandlerParams(false, iface, e), VoidPtr))
            <==> (forall k :: 0 <= k < |e.args| ==> !e.args[k].Untyped())
                 && DistinctArgs(e.args) && !Named(e.args, "data") && !Named(e.args, "object")
  {
    ClientHandlerDistinctIff(iface, e);
    if DistinctNames(HandlerParams(false, iface, e)) {
      ClientEventTypedIff(iface, e, omit);
    }
  }

  // ----- Client requests -----

  /** When the comma printed after the object is the right one. */
  ghost predicate CommaAgrees(e: Message) {
    && !(|e.args| == 1 && e.args[0].Untyped())
    && !(|e.args| >= 2 && forall k :: 0 <= k < |e.args| ==> e.args[k].Typed())
  }

  lemma HeadedListParses(first: Tok, counted: bool, xs: seq<Tok>)
    requires !first.Comma? && Items(xs)
    ensures Parse((if counted then [first, Comma] else [first]) + Join(xs))
            == if counted == (xs != []) then Some([first] + xs) else None
  {
    if xs == [] {
      assert [first, Comma] + Join(xs) == [first, Comma] && [first] + Join(xs) == [first] == [first] + xs;
    } else if counted {
      JoinFirst(first, xs);
      ParseJoin([first] + xs);
    } else {
      MissingComma(first, xs);
    }
  }

  /** The printed call is the comma-joined list of its arguments, or not a list at all. */
  lemma RequestCallParses(iface: string, e: Message)
    ensures Parse(RequestCall(iface, e)) ==
              if CommaAgrees(e) then Some([Arg(Member("m_" + iface))] + RequestArgs(e.args)) else None
  {
    CountAgrees(e);
    var counted := |e.args| - (if HasNewId(e) then 1 else 0) > 0;
    assert RequestHead(iface, e) == if counted then [Arg(Member(ObjectName(iface))), Comma] else [Arg(Member(ObjectName(iface)))];
    HeadedListParses(Arg(Member(ObjectName(iface))), counted, RequestArgs(e.args));
  }

  lemma CountAgrees(e: Message)
    ensures CommaAgrees(e) <==> (|e.args| - (if HasNewId(e) then 1 else 0) > 0) == (RequestArgs(e.args) != [])
  {
    if |e.args| == 1 {
      assert HasNewId(e) <==> e.args[0].ty.NewId?;
    } else if |e.args| >= 2 && RequestArgs(e.args) == [] {
      assert e.args[0].Typed();
    }
  }

  /** The parameters of the library function that sends a request, after the object. */
  function LibraryRequestParam(a: Argument): seq<Tok> {
    if a.Typed() then []
    else if a.Untyped() then [Param(ConstWlInterfacePtr, ""), Param(Uint32, "")]
    else [Param(WireType(false, a), "")]
  }

  function LibraryRequestParamsUpTo(args: seq<Argument>, n: nat): seq<Tok>
    requires n <= |args|
  {
    if n == 0 then [] else LibraryRequestParamsUpTo(args, n - 1) + LibraryRequestParam(args[n - 1])
  }

  function LibraryRequestParams(args: seq<Argument>): seq<Tok> { LibraryRequestParamsUpTo(args, |args|) }

  /** Argument x passes the declared parameter p where the library expects l. */
  predicate Passes(p: Tok, x: Tok, l: Tok, arrays: seq<string>) {
    && p.Param? && x.Arg? && l.Param?
    && match x.e
       case Name(n) => n == p.name && l.cpp == p.cpp
       case ToUtf8(n) => n == p.name && p.cpp == ConstQStringRef && l.cpp == ConstCharPtr
       case AddressOfData(n) => n == p.name && p.cpp == ConstQByteArrayRef && l.cpp == WlArrayPtr && n in arrays
       case _ => false
  }

  lemma ArgumentAligned(a: Argument, arrays: seq<string>)
    requires a.ty.Array? ==> a.name in arrays
    ensures |EventParam(false, true, a, false)| == |RequestArg(a)| == |LibraryRequestParam(a)|
    ensures forall k :: 0 <= k < |RequestArg(a)| ==>
              Passes(EventParam(false, true, a, false)[k], RequestArg(a)[k], LibraryRequestParam(a)[k], arrays)
  {
  }

  ghost predicate Aligned(ps: seq<Tok>, xs: seq<Tok>, ls: seq<Tok>, arrays: seq<string>) {
    |ps| == |xs| == |ls| && forall k :: 0 <= k < |xs| ==> Passes(ps[k], xs[k], ls[k], arrays)
  }

  lemma AlignedConcat(ps: seq<Tok>, xs: seq<Tok>, ls: seq<Tok>, qs: seq<Tok>, ys: seq<Tok>, ms: seq<Tok>, arrays: seq<string>)
    requires Aligned(ps, xs, ls, arrays) && Aligned(qs, ys, ms, arrays)
    ensures Aligned(ps + qs, xs + ys, ls + ms, arrays)
  {
  }

  lemma {:induction false} ListsAlignedUpTo(args: seq<Argument>, n: nat, arrays: seq<string>)
    requires n <= |args| && forall k :: 0 <= k < n && args[k].ty.Array? ==> args[k].name in arrays
    ensures Aligned(EventParamsUpTo(false, true, args, n, false), RequestArgsUpTo(args, n), LibraryRequestParamsUpTo(args, n), arrays)
  {
    if n == 0 {
    } else {
      var a := args[n - 1];
      ListsAlignedUpTo(args, n - 1, arrays);
      ArgumentAligned(a, arrays);
      AlignedConcat(EventParamsUpTo(false, true, args, n - 1, false), RequestArgsUpTo(args, n - 1),
                    LibraryRequestParamsUpTo(args, n - 1),
                    EventParam(false, true, a, false), RequestArg(a), LibraryRequestParam(a), arrays);
    }
  }

  /** Declared parameters, printed arguments and library parameters go in step. */
  lemma RequestListsAligned(args: seq<Argument>, arrays: seq<string>)
    requires forall k :: 0 <= k < |args| && args[k].ty.Array? ==> args[k].name in arrays
    ensures Aligned(EventParams(false, true, args, false), RequestArgs(args), LibraryRequestParams(args), arrays)
  {
    ListsAlignedUpTo(args, |args|, arrays);
  }

  lemma PassedIsAccepted(p: Tok, x: Tok, l: Tok, arrays: seq<string>, scope: seq<Tok>, member: CppType)
    requires Passes(p, x, l, arrays) && Lookup(scope, p.name) == Some(p.cpp)
    requires x.e.AddressOfData? ==> Lookup(scope, DataName(x.e.n)) == Some(WlArray)
    ensures Accepts(l.cpp, TypeOf(x.e, scope, member))
  {
  }

  /** What a request declares: its parameters and the array locals. */
  function RequestScope(e: Message): seq<Tok> {
    Declared(false, e, false, false) + Locals(ArrayNames(e.args))
  }

  lemma RequestArgsTyped(iface: string, e: Message)
    requires e.request && DistinctNames(RequestScope(e)) && !Declares(RequestScope(e), ObjectName(iface))
    ensures WellTyped([Arg(Member(ObjectName(iface)))] + RequestArgs(e.args),
                      [Param(StructPtr(iface), "")] + LibraryRequestParams(e.args), RequestScope(e), StructPtr(iface))
  {
    var arrays, params, scope := ArrayNames(e.args), Declared(false, e, false, false), RequestScope(e);
    RequestListsAligned(e.args, arrays);
    var xs, ls := RequestArgs(e.args), LibraryRequestParams(e.args);
    assert params == EventParams(false, true, e.args, false);
    forall i | 0 <= i < |xs|
      ensures xs[i].Arg? && ls[i].Param? && Accepts(ls[i].cpp, TypeOf(xs[i].e, scope, StructPtr(iface)))
    {
      ParamFound(params, Locals(arrays), i);
      if xs[i].e.AddressOfData? {
        LocalFound(params, arrays, xs[i].e.n);
      }
      PassedIsAccepted(params[i], xs[i], ls[i], arrays, scope, StructPtr(iface));
    }
    LookupDeclared(scope, ObjectName(iface));
    TypedAfter(Arg(Member(ObjectName(iface))), Param(StructPtr(iface), ""), xs, ls, scope, StructPtr(iface));
  }

  // ----- The names of a client request -----

  /** The first n arguments make the request declare m. */
  ghost predicate RequestNamed(args: seq<Argument>, n: nat, m: string)
    requires n <= |args|
  {
    exists i :: 0 <= i < n &&
      ((!args[i].ty.NewId? && args[i].name == m) || (args[i].Untyped() && m in ["interface", "version"]))
  }

  lemma ParamDeclares(a: Argument, m: string)
    ensures Declares(EventParam(false, true, a, false), m) <==>
              (!a.ty.NewId? && a.name == m) || (a.Untyped() && m in ["interface", "version"])
    ensures DistinctNames(EventParam(false, true, a, false))
  {
    var ps := EventParam(false, true, a, false);
    if a.Untyped() {
      assert ps[0].name == "interface" && ps[1].name == "version";
    } else if !a.ty.NewId? {
      assert ps[0].name == a.name;
    }
  }

  lemma {:induction false} RequestDeclares(args: seq<Argument>, n: nat, m: string)
    requires n <= |args|
    ensures Declares(EventParamsUpTo(false, true, args, n, false), m) <==> RequestNamed(args, n, m)
  {
    if n == 0 {
    } else {
      var k := n - 1;
      RequestDeclares(args, k, m);
      ParamDeclares(args[k], m);
      DeclaresConcat(EventParamsUpTo(false, true, args, k, false), EventParam(false, true, args[k], false), m);
    }
  }

  /** The names of the first n arguments do not clash: one untyped new_id at most, with its own two names. */
  ghost predicate RequestNamesFree(args: seq<Argument>, n: nat)
    requires n <= |args|
  {
    && (forall i, j :: 0 <= i < j < n && !args[i].ty.NewId? && !args[j].ty.NewId? ==> args[i].name != args[j].name)
    && (forall i, j :: 0 <= i < j < n ==> !(args[i].Untyped() && args[j].Untyped()))
    && (forall i, j :: 0 <= i < n && 0 <= j < n && args[i].Untyped() && !args[j].ty.NewId? ==>
          args[j].name !in ["interface", "version"])
  }

  lemma RequestNamesStep(args: seq<Argument>, k: nat)
    requires k < |args|
    ensures RequestNamesFree(args, k + 1) <==>
              RequestNamesFree(args, k)
              && forall m :: !(RequestNamed(args, k, m) && Declares(EventParam(false, true, args[k], false), m))
  {
    var a := args[k];
    if RequestNamesFree(args, k + 1) {
      forall m ensures !(RequestNamed(args, k, m) && Declares(EventParam(false, true, a, false), m)) {
        ParamDeclares(a, m);
      }
    } else if RequestNamesFree(args, k) {
      if i :| 0 <= i < k && !args[i].ty.NewId? && !a.ty.NewId? && args[i].name == a.name {
        ParamDeclares(a, a.name);
        assert RequestNamed(args, k, a.name);
      } else if i :| 0 <= i < k && args[i].Untyped() && a.Untyped() {
        ParamDeclares(a, "version");
        assert RequestNamed(args, k, "version");
      } else if i :| 0 <= i < k && args[i].Untyped() && !a.ty.NewId? && a.name in ["interface", "version"] {
        ParamDeclares(a, a.name);
        assert RequestNamed(args, k, a.name);
      } else {
        var j :| 0 <= j < k && !args[j].ty.NewId? && a.Untyped() && args[j].name in ["interface", "version"];
        ParamDeclares(a, args[j].name);
        assert RequestNamed(args, k, args[j].name);
      }
    }
  }

  lemma {:induction false} RequestDistinctIff(args: seq<Argument>, n: nat)
    requires n <= |args|
    ensures DistinctNames(EventParamsUpTo(false, true, args, n, false)) <==> RequestNamesFree(args, n)
  {
    if n == 0 {
    } else {
      var k := n - 1;
      var front, more := EventParamsUpTo(false, true, args, k, false), EventParam(false, true, args[k], false);
      RequestDistinctIff(args, k);
      RequestNamesStep(args, k);
      ParamDeclares(args[k], "");
      DistinctConcat(front, more);
      forall m ensures Declares(front, m) <==> RequestNamed(args, k, m) {
        RequestDeclares(args, k, m);
      }
    }
  }

  lemma RequestLocalsIff(args: seq<Argument>)
    ensures (forall m :: m in ArrayNames(args) ==> !RequestNamed(args, |args|, DataName(m))) <==> LocalsFree(args, false)
  {
    if LocalsFree(args, false) {
      forall m | m in ArrayNames(args) ensures !RequestNamed(args, |args|, DataName(m)) {
        DataNameEnds(m);
      }
    } else {
      var i, j :| 0 <= i < |args| && 0 <= j < |args| && args[i].ty.Array? && !args[j].ty.NewId?
                  && args[j].name == DataName(args[i].name);
      assert args[i].name in ArrayNames(args) && RequestNamed(args, |args|, DataName(args[i].name));
    }
  }

  lemma RequestScopeDistinctIff(e: Message)
    requires e.request
    ensures DistinctNames(RequestScope(e)) <==> RequestNamesFree(e.args, |e.args|) && LocalsFree(e.args, false)
  {
    var params, names := EventParams(false, true, e.args, false), ArrayNames(e.args);
    assert Declared(false, e, false, false) == params;
    RequestDistinctIff(e.args, |e.args|);
    if DistinctNames(params) {
      ArraysDeclaredUpTo(e.args, |e.args|);
      WithLocals(params, names);
      forall m ensures Declares(params, DataName(m)) <==> RequestNamed(e.args, |e.args|, DataName(m)) {
        RequestDeclares(e.args, |e.args|, DataName(m));
      }
      RequestLocalsIff(e.args);
    } else {
      DistinctConcat(params, Locals(names));
    }
  }

  /** Neither a parameter nor a local of the request hides the member that holds the proxy. */
  ghost predicate ProxyFree(iface: string, args: seq<Argument>) {
    && (forall i :: 0 <= i < |args| && !args[i].ty.NewId? ==> args[i].name != ObjectName(iface))
    && (forall i :: 0 <= i < |args| && args[i].ty.Array? ==> DataName(args[i].name) != ObjectName(iface))
  }

  lemma ProxyHiddenIff(iface: string, e: Message)
    requires e.request
    ensures Declares(RequestScope(e), ObjectName(iface)) <==> !ProxyFree(iface, e.args)
  {
    var params, names, proxy := EventParams(false, true, e.args, false), ArrayNames(e.args), ObjectName(iface);
    assert Declared(false, e, false, false) == params;
    DeclaresConcat(params, Locals(names), proxy);
    RequestDeclares(e.args, |e.args|, proxy);
    LocalsNames(names);
    assert proxy[0] == 'm' && "interface"[0] == 'i' && "version"[0] == 'v';
    if i :| 0 <= i < |e.args| && e.args[i].ty.Array? && DataName(e.args[i].name) == proxy {
      assert e.args[i].name in names;
    }
  }

  /**
   A client request is generated correctly exactly when the comma agrees and no
   names clash: the call then passes the declared parameters, each once and in
   order, with the types the library expects.
   */
  lemma ClientRequestCallIff(iface: string, e: Message)
    requires e.request
    ensures (DistinctNames(RequestScope(e)) && Parse(RequestCall(iface, e)).Some?
             && WellTyped(Parse(RequestCall(iface, e)).value, [Param(StructPtr(iface), "")] + LibraryRequestParams(e.args),
                          RequestScope(e), StructPtr(iface)))
            <==> CommaAgrees(e) && RequestNamesFree(e.args, |e.args|) && LocalsFree(e.args, false) && ProxyFree(iface, e.args)
  {
    RequestCallParses(iface, e);
    RequestScopeDistinctIff(e);
    ProxyHiddenIff(iface, e);
    if DistinctNames(RequestScope(e)) && CommaAgrees(e) {
      if ProxyFree(iface, e.args) {
        RequestArgsTyped(iface, e);
      } else {
        LookupDeclared(RequestScope(e), ObjectName(iface));
        assert Parse(RequestCall(iface, e)).value[0] == Arg(Member(ObjectName(iface)));
      }
    }
  }

  /** The smallest request whose array local clashes with an argument. */
  lemma ArrayLocalClashes(iface: string)
    ensures var e := Message(true, "set", [Argument("x", Array, ""), Argument("x_data", Int, "")]);
            CommaAgrees(e) && DistinctArgs(e.args) && !DistinctNames(RequestScope(e)) && !DistinctNames(SendScope(e.(request := false)))
  {
    var e := Message(true, "set", [Argument("x", Array, ""), Argument("x_data", Int, "")]);
    assert e.args[1].name == DataName(e.args[0].name);
    RequestScopeDistinctIff(e);
    SendScopeDistinctIff(e.(request := false));
  }

  lemma ArrayArgOf(a: Argument, m: string)
    ensures Arg(AddressOfData(m)) in RequestArg(a) <==> a.ty.Array? && a.name == m
  {
  }

  lemma {:induction false} ArraysDeclaredUpTo(args: seq<Argument>, n: nat)
    requires n <= |args|
    requires forall i, j :: 0 <= i < j < n && args[i].ty.Array? && args[j].ty.Array? ==> args[i].name != args[j].name
    ensures NoDup(ArrayNamesUpTo(args, n))
    ensures forall m :: m in ArrayNamesUpTo(args, n) <==> Arg(AddressOfData(m)) in RequestArgsUpTo(args, n)
  {
    if n == 0 {
    } else {
      var a := args[n - 1];
      ArraysDeclaredUpTo(args, n - 1);
      var names, xs := ArrayNamesUpTo(args, n - 1), RequestArgsUpTo(args, n - 1);
      assert a.ty.Array? ==> a.name !in names;
      forall m ensures m in ArrayNamesUpTo(args, n) <==> Arg(AddressOfData(m)) in RequestArgsUpTo(args, n) {
        ArrayArgOf(a, m);
        assert m in ArrayNamesUpTo(args, n) <==> m in names || (a.ty.Array? && a.name == m);
        assert RequestArgsUpTo(args, n) == xs + RequestArg(a);
      }
      if a.ty.Array? {
        NoDupAppend(names, a.name);
      }
    }
  }

  /** The local arrays are those the call refers to, and each is declared once. */
  lemma ArraysDeclaredOnce(args: seq<Argument>)
    requires forall i, j :: 0 <= i < j < |args| && args[i].ty.Array? && args[j].ty.Array? ==> args[i].name != args[j].name
    ensures NoDup(ArrayNames(args))
    ensures forall m :: m in ArrayNames(args) <==> Arg(AddressOfData(m)) in RequestArgs(args)
  {
    ArraysDeclaredUpTo(args, |args|);
  }

  /** Exactly one declaration in the scope has this name. */
  ghost predicate DeclaredOnce(scope: seq<Tok>, n: string) {
    exists k :: 0 <= k < |scope| && scope[k].Param? && scope[k].name == n
                && forall l :: 0 <= l < |scope| && scope[l].Param? && scope[l].name == n ==> l == k
  }

  /** Where the first of two concatenated lists does not declare the name, the second decides. */
  lemma OnceAfter(ps: seq<Tok>, ls: seq<Tok>, k: nat)
    requires DistinctNames(ls) && k < |ls|
    ensures DeclaredOnce(ps + ls, ls[k].name) <==> !Declares(ps, ls[k].name)
  {
    var scope, n := ps + ls, ls[k].name;
    assert scope[|ps| + k] == ls[k];
    assert forall l :: 0 <= l < |ps| ==> scope[l] == ps[l];
    if !Declares(ps, n) {
      forall l | 0 <= l < |scope| && scope[l].Param? && scope[l].name == n ensures l == |ps| + k {
        assert l >= |ps|;
        assert scope[l] == ls[l - |ps|];
      }
    } else {
      var l :| 0 <= l < |ps| && ps[l].Param? && ps[l].name == n;
      assert scope[l].name == n;
    }
  }

  /** In a request with distinct names every array local used is declared exactly once iff no parameter has its name. */
  lemma LocalsDeclaredOnceIff(e: Message)
    requires e.request && RequestNamesFree(e.args, |e.args|)
    ensures (forall m :: Arg(AddressOfData(m)) in RequestArgs(e.args) ==> DeclaredOnce(RequestScope(e), DataName(m)))
            <==> LocalsFree(e.args, false)
  {
    var params, names := EventParams(false, true, e.args, false), ArrayNames(e.args);
    assert Declared(false, e, false, false) == params;
    ArraysDeclaredOnce(e.args);
    LocalsNames(names);
    forall m | m in names ensures DeclaredOnce(RequestScope(e), DataName(m)) <==> !RequestNamed(e.args, |e.args|, DataName(m)) {
      var k :| 0 <= k < |names| && names[k] == m;
      OnceAfter(params, Locals(names), k);
      RequestDeclares(e.args, |e.args|, DataName(m));
    }
    RequestLocalsIff(e.args);
  }

  /** The two kinds of request for which the generated call does not compile. */
  lemma BadRequestCalls(iface: string, name: string)
    requires name != ""
    ensures Parse(RequestCall(iface, Message(true, "bind", [Argument("id", NewId, "")]))) == None
    ensures Parse(RequestCall(iface, Message(true, "get", [Argument("a", NewId, name), Argument("b", NewId, name)]))) == None
  {
    RequestCallParses(iface, Message(true, "bind", [Argument("id", NewId, "")]));
    RequestCallParses(iface, Message(true, "get", [Argument("a", NewId, name), Argument("b", NewId, name)]));
  }
}
