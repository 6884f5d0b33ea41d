/** The printing loops of tools/waylandscanner/waylandscanner.cpp and how they fit together. */
module Scanner {
  import opened Sequences
  import opened ScannerTypes

  // ----- Parameter lists -----

  function Shown(omitNames: bool, name: string): string { if omitNames then "" else name }

  /** What printEvent prints for one argument. */
  function EventParam(server: bool, request: bool, a: Argument, omit: bool): seq<Tok> {
    if a.ty.NewId? && !server && ((a.iface == "") != request) then []
    else if a.ty.NewId? && server && request then [Param(Uint32, Shown(omit, a.name))]
    else if a.ty.NewId? && !server && request then
      [Param(ConstWlInterfacePtr, Shown(omit, "interface")), Param(Uint32, Shown(omit, "version"))]
    else [Param(QtType(server, a, request == server), Shown(omit, a.name))]
  }

  /** The parameters for the first n arguments. */
  function EventParamsUpTo(server: bool, request: bool, args: seq<Argument>, n: nat, omit: bool): (ps: seq<Tok>)
    requires n <= |args|
    ensures Items(ps)
  {
    if n == 0 then []
    else EventParamsUpTo(server, request, args, n - 1, omit) + EventParam(server, request, args[n - 1], omit)
  }

  function EventParams(server: bool, request: bool, args: seq<Argument>, omit: bool): (ps: seq<Tok>)
    ensures Items(ps)
  {
    EventParamsUpTo(server, request, args, |args|, omit)
  }

  function EventHead(server: bool, request: bool, omit: bool, withResource: bool): seq<Tok> {
    if server && request then [Param(ResourcePtr, Shown(omit, "resource"))]
    else if server && withResource then [Param(WlResourcePtr, Shown(omit, "resource"))]
    else []
  }

  /** The parameters printEvent declares. */
  function Declared(server: bool, e: Message, omit: bool, withResource: bool): seq<Tok> {
    EventHead(server, e.request, omit, withResource) + EventParams(server, e.request, e.args, omit)
  }

  /** One turn of printEvent's loop. */
  method PrintEventArgument(server: bool, request: bool, a: Argument, omitNames: bool, needsComma: bool)
    returns (out: seq<Tok>, printed: bool)
    ensures printed == (EventParam(server, request, a, omitNames) != [])
    ensures out == Continued(needsComma, EventParam(server, request, a, omitNames))
  {
    out, printed := [], false;
    var isNewId := a.ty.NewId?;
    if isNewId && !server && ((a.iface == "") != request) {
      return;
    }
    if needsComma {
      out := [Comma];
    }
    printed := true;
    if isNewId {
      if server {
        if request {
          out := out + [Param(Uint32, Shown(omitNames, a.name))];
          return;
        }
      } else {
        if request {
          var iface, version := Param(ConstWlInterfacePtr, Shown(omitNames, "interface")), Param(Uint32, Shown(omitNames, "version"));
          out := out + [iface, Comma, version];
          JoinPair(iface, version);
          return;
        }
      }
    }
    var qtType := QtType(server, a, request == server);
    assert EventParam(server, request, a, omitNames) == [Param(qtType, Shown(omitNames, a.name))];
    out := out + [Param(qtType, Shown(omitNames, a.name))];
  }

  /** The list printed before argument i: the head, then the parameters of the arguments. */
  function DeclaredBefore(server: bool, e: Message, omit: bool, withResource: bool, i: nat): seq<Tok>
    requires i <= |e.args|
  {
    if i == 0 then EventHead(server, e.request, omit, withResource)
    else DeclaredBefore(server, e, omit, withResource, i - 1) + EventParam(server, e.request, e.args[i - 1], omit)
  }

  lemma {:induction false} DeclaredBeforeIs(server: bool, e: Message, omit: bool, withResource: bool, i: nat)
    requires i <= |e.args|
    ensures DeclaredBefore(server, e, omit, withResource, i)
            == EventHead(server, e.request, omit, withResource) + EventParamsUpTo(server, e.request, e.args, i, omit)
  {
    if i == 0 {
    } else {
      DeclaredBeforeIs(server, e, omit, withResource, i - 1);
    }
  }

  /** `out` is what the loop has printed before argument i. */
  ghost predicate PrintedBefore(server: bool, e: Message, omit: bool, withResource: bool, i: nat, out: seq<Tok>, needsComma: bool)
    requires i <= |e.args|
  {
    var done := DeclaredBefore(server, e, omit, withResource, i);
    out == Join(done) && needsComma == (done != [])
  }

  lemma PrintedAtStart(server: bool, e: Message, omit: bool, withResource: bool)
    ensures PrintedBefore(server, e, omit, withResource, 0, EventHead(server, e.request, omit, withResource),
                          EventHead(server, e.request, omit, withResource) != [])
  {
    var head := EventHead(server, e.request, omit, withResource);
    assert DeclaredBefore(server, e, omit, withResource, 0) == head;
  }

  /** One turn of the loop prints the parameters of one argument. */
  lemma PrintedNext(server: bool, e: Message, omit: bool, withResource: bool, i: nat, out: seq<Tok>, needsComma: bool)
    requires i < |e.args| && PrintedBefore(server, e, omit, withResource, i, out, needsComma)
    ensures var more := EventParam(server, e.request, e.args[i], omit);
            PrintedBefore(server, e, omit, withResource, i + 1, out + Continued(needsComma, more), needsComma || more != [])
  {
    var done, more := DeclaredBefore(server, e, omit, withResource, i), EventParam(server, e.request, e.args[i], omit);
    assert DeclaredBefore(server, e, omit, withResource, i + 1) == done + more;
    JoinAppend(done, more);
  }

  method PrintEventTurn(server: bool, e: Message, omitNames: bool, ghost withResource: bool, i: nat,
                        printed: seq<Tok>, needsComma: bool)
    returns (out: seq<Tok>, comma: bool)
    requires i < |e.args| && PrintedBefore(server, e, omitNames, withResource, i, printed, needsComma)
    ensures PrintedBefore(server, e, omitNames, withResource, i + 1, out, comma)
  {
    PrintedNext(server, e, omitNames, withResource, i, printed, needsComma);
    var text, some := PrintEventArgument(server, e.request, e.args[i], omitNames, needsComma);
    out, comma := printed + text, needsComma || some;
  }

  method PrintEventHead(server: bool, e: Message, omitNames: bool, withResource: bool)
    returns (out: seq<Tok>, needsComma: bool)
    ensures PrintedBefore(server, e, omitNames, withResource, 0, out, needsComma)
  {
    PrintedAtStart(server, e, omitNames, withResource);
    out, needsComma := [], false;
    if server {
      if e.request {
        out := [Param(ResourcePtr, Shown(omitNames, "resource"))];
        needsComma := true;
      } else if withResource {
        out := [Param(WlResourcePtr, Shown(omitNames, "resource"))];
        needsComma := true;
      }
    }
  }

  method PrintEvent(server: bool, e: Message, omitNames: bool, withResource: bool) returns (out: seq<Tok>)
    ensures out == Join(Declared(server, e, omitNames, withResource))
  {
    var needsComma;
    out, needsComma := PrintEventHead(server, e, omitNames, withResource);
    var i := 0;
    while i < |e.args|
      invariant 0 <= i <= |e.args|
      invariant PrintedBefore(server, e, omitNames, withResource, i, out, needsComma)
    {
      out, needsComma := PrintEventTurn(server, e, omitNames, withResource, i, out, needsComma);
      i := i + 1;
    }
    DeclaredBeforeIs(server, e, omitNames, withResource, i);
  }

  function HandlerParam(server: bool, a: Argument): Tok {
    Param(if server && a.ty.NewId? then Uint32 else CType(server, a), a.name)
  }

  /** The parameters of the static handler the library calls. */
  function HandlerParams(server: bool, iface: string, e: Message): seq<Tok> {
    (if server then [Param(WlClientPtr, "client"), Param(WlResourcePtr, "resource")]
     else [Param(VoidPtr, "data"), Param(StructPtr(iface), "object")])
    + seq(|e.args|, i requires 0 <= i < |e.args| => HandlerParam(server, e.args[i]))
  }

  method PrintEventHandlerSignature(server: bool, iface: string, e: Message) returns (out: seq<Tok>)
    ensures out == Join(HandlerParams(server, iface, e))
  {
    ghost var all := HandlerParams(server, iface, e);
    if server {
      out := [Param(WlClientPtr, "client"), Comma, Param(WlResourcePtr, "resource")];
    } else {
      out := [Param(VoidPtr, "data"), Comma, Param(StructPtr(iface), "object")];
    }
    assert out == JoinUpTo(all, 2) by {
      assert JoinUpTo(all, 1) == [all[0]];
    }
    var i := 0;
    while i < |e.args|
      invariant 0 <= i <= |e.args|
      invariant out == JoinUpTo(all, i + 2)
    {
      var a := e.args[i];
      assert all[i + 2] == HandlerParam(server, a);
      if server && a.ty.NewId? {
        out := out + [Comma, Param(Uint32, a.name)];
      } else {
        out := out + [Comma, Param(CType(server, a), a.name)];
      }
      i := i + 1;
    }
  }

  // ----- Printed calls -----

  /** The adapter call of a server request handler: the items between its parentheses. */
  function AdapterArg(a: Argument): Tok {
    Arg(if a.ty.String? then FromUtf8(a.name) else Name(a.name))
  }

  function ConvertedArgs(e: Message): seq<Tok> {
    seq(|e.args|, i requires 0 <= i < |e.args| => AdapterArg(e.args[i]))
  }

  function AdapterArgs(e: Message): seq<Tok> {
    [Arg(Name("r"))] + ConvertedArgs(e)
  }

  method PrintServerRequestCall(e: Message) returns (out: seq<Tok>)
    requires e.request
    ensures out == Join(AdapterArgs(e))
  {
    ghost var all := AdapterArgs(e);
    out := [Arg(Name("r"))];
    var i := 0;
    while i < |e.args|
      invariant 0 <= i <= |e.args|
      invariant out == JoinUpTo(all, i + 1)
    {
      ghost var before := out;
      out := out + [Comma];
      var a := e.args[i];
      var cType := CType(true, a);
      var qtType := QtType(true, a, e.request);
      if cType == qtType {
        out := out + [Arg(Name(a.name))];
      } else if a.ty.String? {
        out := out + [Arg(FromUtf8(a.name))];
      }
      assert out == before + [Comma, all[i + 1]];
      i := i + 1;
    }
  }

  /** The call with which a client event handler reaches the virtual method. */
  method PrintClientEventCall(e: Message) returns (out: seq<Tok>)
    ensures out == Join(ConvertedArgs(e))
  {
    ghost var all := ConvertedArgs(e);
    out := [];
    var i := 0;
    while i < |e.args|
      invariant 0 <= i <= |e.args|
      invariant out == if 0 < i < |e.args| then JoinUpTo(all, i) + [Comma] else JoinUpTo(all, i)
    {
      ghost var before := out;
      var a := e.args[i];
      if a.ty.String? {
        out := out + [Arg(FromUtf8(a.name))];
      } else {
        out := out + [Arg(Name(a.name))];
      }
      assert out == before + [all[i]] == JoinUpTo(all, i + 1);
      if i < |e.args| - 1 {
        out := out + [Comma];
      }
      i := i + 1;
    }
  }

  /** The arrays among the first n arguments, for which a wl_array local is declared. */
  function ArrayNamesUpTo(args: seq<Argument>, n: nat): (ns: seq<string>)
    requires n <= |args|
    ensures forall m :: m in ns <==> exists i :: 0 <= i < n && args[i].ty.Array? && args[i].name == m
  {
    if n == 0 then []
    else if args[n - 1].ty.Array? then ArrayNamesUpTo(args, n - 1) + [args[n - 1].name]
    else ArrayNamesUpTo(args, n - 1)
  }

  function ArrayNames(args: seq<Argument>): (ns: seq<string>)
    ensures forall m :: m in ns <==> exists i :: 0 <= i < |args| && args[i].ty.Array? && args[i].name == m
  {
    ArrayNamesUpTo(args, |args|)
  }

  method PrintArrayLocals(e: Message) returns (locals: seq<string>)
    ensures locals == ArrayNames(e.args)
  {
    locals := [];
    var i := 0;
    while i < |e.args|
      invariant 0 <= i <= |e.args|
      invariant locals == ArrayNamesUpTo(e.args, i)
    {
      var a := e.args[i];
      i := i + 1;
      if !a.ty.Array? {
        continue;
      }
      locals := locals + [a.name];
    }
  }

  /** What a call of the C library needs for one argument held as a Qt value. */
  function LibraryArg(a: Argument): Tok {
    Arg(if a.ty.String? then ToUtf8(a.name) else if a.ty.Array? then AddressOfData(a.name) else Name(a.name))
  }

  function ForwardArgs(e: Message): seq<Tok> {
    [Arg(MemberHandle)] + seq(|e.args|, i requires 0 <= i < |e.args| => Arg(Name(e.args[i].name)))
  }

  function SendArgs(e: Message): seq<Tok> {
    [Arg(Name("resource"))] + seq(|e.args|, i requires 0 <= i < |e.args| => LibraryArg(e.args[i]))
  }

  /** send_event without a resource: it calls the one that takes the resource. */
  method PrintServerEventForward(e: Message) returns (out: seq<Tok>)
    ensures out == Join(ForwardArgs(e))
  {
    ghost var all := ForwardArgs(e);
    out := [Arg(MemberHandle)];
    var i := 0;
    while i < |e.args|
      invariant 0 <= i <= |e.args|
      invariant out == JoinUpTo(all, i + 1)
    {
      out := out + [Comma, Arg(Name(e.args[i].name))];
      i := i + 1;
    }
  }

  method PrintServerEventCall(e: Message) returns (out: seq<Tok>)
    requires !e.request
    ensures out == Join(SendArgs(e))
  {
    ghost var all := SendArgs(e);
    out := [Arg(Name("resource"))];
    var i := 0;
    while i < |e.args|
      invariant 0 <= i <= |e.args|
      invariant out == JoinUpTo(all, i + 1)
    {
      var a := e.args[i];
      ghost var before := out;
      out := out + [Comma];
      var cType := CType(true, a);
      var qtType := QtType(true, a, e.request);
      if a.ty.String? {
        out := out + [Arg(ToUtf8(a.name))];
      } else if a.ty.Array? {
        out := out + [Arg(AddressOfData(a.name))];
      } else if cType == qtType {
        out := out + [Arg(Name(a.name))];
      }
      assert out == before + [Comma, all[i + 1]];
      i := i + 1;
    }
  }

  /** What a client request passes for one argument, after the object. */
  function RequestArg(a: Argument): seq<Tok> {
    if a.Typed() then []
    else if a.Untyped() then [Arg(Name("interface")), Arg(Name("version"))]
    else [LibraryArg(a)]
  }

  function RequestArgsUpTo(args: seq<Argument>, n: nat): (xs: seq<Tok>)
    requires n <= |args|
    ensures Items(xs)
    ensures xs == [] <==> forall i :: 0 <= i < n ==> args[i].Typed()
  {
    if n == 0 then [] else RequestArgsUpTo(args, n - 1) + RequestArg(args[n - 1])
  }

  function RequestArgs(args: seq<Argument>): (xs: seq<Tok>)
    ensures Items(xs)
    ensures xs == [] <==> forall i :: 0 <= i < |args| ==> args[i].Typed()
  {
    RequestArgsUpTo(args, |args|)
  }

  ghost predicate HasNewId(e: Message) {
    exists i :: 0 <= i < |e.args| && e.args[i].ty.NewId?
  }

  method NewIdArgument(args: seq<Argument>) returns (found: bool)
    ensures found <==> exists i :: 0 <= i < |args| && args[i].ty.NewId?
  {
    for i := 0 to |args|
      invariant forall j :: 0 <= j < i ==> !args[j].ty.NewId?
    {
      if args[i].ty.NewId? {
        return true;
      }
    }
    return false;
  }

  /** The member that holds the proxy of an interface. */
  function ObjectName(iface: string): string { "m_" + iface }

  ghost function RequestHead(iface: string, e: Message): seq<Tok> {
    var proxy := Arg(Member(ObjectName(iface)));
    if |e.args| - (if HasNewId(e) then 1 else 0) > 0 then [proxy, Comma] else [proxy]
  }

  /** The comma after the object is decided by a count, the arguments by another rule. */
  ghost function RequestCall(iface: string, e: Message): seq<Tok> {
    RequestHead(iface, e) + Join(RequestArgs(e.args))
  }

  /** One turn of the loop that prints the arguments of a client request. */
  method PrintRequestArgument(a: Argument, needsComma: bool) returns (out: seq<Tok>, printed: bool)
    ensures printed == (RequestArg(a) != [])
    ensures out == Continued(needsComma, RequestArg(a))
  {
    out, printed := [], false;
    var isNewId := a.ty.NewId?;
    if isNewId && a.iface != "" {
      return;
    }
    if needsComma {
      out := out + [Comma];
    }
    printed := true;
    if isNewId {
      var iface, version := Arg(Name("interface")), Arg(Name("version"));
      out := out + [iface, Comma, version];
      JoinPair(iface, version);
    } else {
      var cType := CType(false, a);
      var qtType := QtType(false, a, true);
      if a.ty.String? {
        out := out + [Arg(ToUtf8(a.name))];
      } else if a.ty.Array? {
        out := out + [Arg(AddressOfData(a.name))];
      } else if cType == qtType {
        out := out + [Arg(Name(a.name))];
      }
    }
  }

  /** What is printed before argument i. */
  ghost function CallBefore(iface: string, e: Message, i: nat): seq<Tok>
    requires i <= |e.args|
  {
    if i == 0 then RequestHead(iface, e)
    else CallBefore(iface, e, i - 1) + Continued(RequestArgsUpTo(e.args, i - 1) != [], RequestArg(e.args[i - 1]))
  }

  lemma NothingMore(head: seq<Tok>)
    ensures head + Join([]) == head
  {
  }

  lemma MoreAfter(before: seq<Tok>, after: seq<Tok>, head: seq<Tok>, done: seq<Tok>, more: seq<Tok>)
    requires before == head + Join(done) && after == before + Continued(done != [], more)
    ensures after == head + Join(done + more)
  {
    JoinAppend(done, more);
    ConcatAssoc(head, Join(done), Continued(done != [], more));
  }

  lemma CallStep(iface: string, e: Message, i: nat)
    requires i < |e.args| && CallBefore(iface, e, i) == RequestHead(iface, e) + Join(RequestArgsUpTo(e.args, i))
    ensures CallBefore(iface, e, i + 1) == RequestHead(iface, e) + Join(RequestArgsUpTo(e.args, i + 1))
  {
    MoreAfter(CallBefore(iface, e, i), CallBefore(iface, e, i + 1), RequestHead(iface, e), RequestArgsUpTo(e.args, i), RequestArg(e.args[i]));
  }

  lemma CallStart(iface: string, e: Message)
    ensures CallBefore(iface, e, 0) == RequestHead(iface, e) + Join(RequestArgsUpTo(e.args, 0))
  {
    NothingMore(RequestHead(iface, e));
  }

  lemma {:induction false} CallBeforeIs(iface: string, e: Message, i: nat)
    requires i <= |e.args|
    ensures CallBefore(iface, e, i) == RequestHead(iface, e) + Join(RequestArgsUpTo(e.args, i))
  {
    if i == 0 {
      CallStart(iface, e);
    } else {
      var j := i - 1;
      CallBeforeIs(iface, e, j);
      CallStep(iface, e, j);
    }
  }

  method PrintRequestTurn(iface: string, e: Message, i: nat, printed: seq<Tok>, needsComma: bool) returns (out: seq<Tok>, comma: bool)
    requires e.request && i < |e.args| && printed == CallBefore(iface, e, i) && needsComma == (RequestArgsUpTo(e.args, i) != [])
    ensures out == CallBefore(iface, e, i + 1) && comma == (RequestArgsUpTo(e.args, i + 1) != [])
  {
    var text, some := PrintRequestArgument(e.args[i], needsComma);
    out, comma := printed + text, needsComma || some;
  }

  method PrintRequestHead(iface: string, e: Message) returns (out: seq<Tok>)
    ensures out == CallBefore(iface, e, 0)
  {
    var newId := NewIdArgument(e.args);
    var actualArgumentCount := if newId then |e.args| - 1 else |e.args|;
    var proxy := Arg(Member(ObjectName(iface)));
    out := if actualArgumentCount > 0 then [proxy, Comma] else [proxy];
  }

  method PrintClientRequestCall(iface: string, e: Message) returns (out: seq<Tok>)
    requires e.request
    ensures out == RequestCall(iface, e)
  {
    out := PrintRequestHead(iface, e);
    var needsComma := false;
    var i := 0;
    while i < |e.args|
      invariant 0 <= i <= |e.args|
      invariant out == CallBefore(iface, e, i) && needsComma == (RequestArgsUpTo(e.args, i) != [])
    {
      out, needsComma := PrintRequestTurn(iface, e, i, out, needsComma);
      i := i + 1;
    }
    CallBeforeIs(iface, e, i);
  }
}
