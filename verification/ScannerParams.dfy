/** What the scanner declares for each argument of a message, type by type. */
module ScannerParams {
  import opened Sequences
  import opened ScannerTypes
  import opened Scanner
  import opened ScannerTheorems

  /** The static handler takes two parameters of its own and then the C type of each argument. */
  lemma HandlerParamTypes(server: bool, iface: string, e: Message, i: nat)
    requires i < |e.args|
    ensures var ps, a := HandlerParams(server, iface, e), e.args[i];
            && |ps| == |e.args| + 2
            && (server ==> ps[0] == Param(WlClientPtr, "client") && ps[1] == Param(WlResourcePtr, "resource"))
            && (!server ==> ps[0] == Param(VoidPtr, "data") && ps[1] == Param(StructPtr(iface), "object"))
            && (a.ty.Int? ==> ps[i + 2] == Param(Int32, a.name))
            && (a.ty.Uint? ==> ps[i + 2] == Param(Uint32, a.name))
            && (a.ty.Fixed? ==> ps[i + 2] == Param(WlFixed, a.name))
            && (a.ty.String? ==> ps[i + 2] == Param(ConstCharPtr, a.name))
            && (a.ty.Array? ==> ps[i + 2] == Param(WlArrayPtr, a.name))
            && (a.ty.FileDescriptor? ==> ps[i + 2] == Param(Int32, a.name))
            && (a.ty.Object? && server ==> ps[i + 2] == Param(WlResourcePtr, a.name))
            && (a.ty.NewId? && server ==> ps[i + 2] == Param(Uint32, a.name))
            && (a.ty in {Object, NewId} && !server ==>
                  ps[i + 2] == Param(if a.iface == "" then WlObjectPtr else StructPtr(a.iface), a.name))
            && (a.ty.Other? ==> ps[i + 2] == Param(Word(a.ty.word), a.name))
            // what the library passes, but for the id of an object yet to be made
            && ps[i + 2].cpp == if server && a.ty.NewId? then Uint32 else WireType(server, a)
  {
  }

  /**
   How many parameters printEvent declares for an argument: a new_id of a
   client is the result of a request with a known interface, and two
   parameters of one without; an event cannot announce one without.
   */
  function Width(server: bool, request: bool, a: Argument): nat {
    if server || !a.ty.NewId? then 1
    else if request then (if a.iface == "" then 2 else 0)
    else if a.iface == "" then 0 else 1
  }

  /** Where the parameters of argument i are in the list. */
  function Place(server: bool, e: Message, withResource: bool, i: nat): nat
    requires i <= |e.args|
  {
    if i == 0 then (if server && (e.request || withResource) then 1 else 0)
    else Place(server, e, withResource, i - 1) + Width(server, e.request, e.args[i - 1])
  }

  lemma EventParamWidth(server: bool, request: bool, a: Argument, omit: bool)
    ensures |EventParam(server, request, a, omit)| == Width(server, request, a)
  {
  }

  /** The parameters for one argument, with names or without. */
  predicate DeclaredAs(server: bool, request: bool, a: Argument, omit: bool, ps: seq<Tok>) {
    var name := if omit then "" else a.name;
    && |ps| == Width(server, request, a)
    && (a.ty.Int? ==> ps[0] == Param(Int32, name))
    && (a.ty.Uint? ==> ps[0] == Param(Uint32, name))
    && (a.ty.Fixed? ==> ps[0] == Param(WlFixed, name))
    && (a.ty.String? ==> ps[0] == Param(ConstQStringRef, name))
    && (a.ty.Array? && request == server ==> ps[0] == Param(WlArrayPtr, name))
    && (a.ty.Array? && request != server ==> ps[0] == Param(ConstQByteArrayRef, name))
    && (a.ty.FileDescriptor? ==> ps[0] == Param(Int32, name))
    && (a.ty.Object? && server ==> ps[0] == Param(WlResourcePtr, name))
    && (a.ty.Object? && !server ==> ps[0] == Param(if a.iface == "" then WlObjectPtr else StructPtr(a.iface), name))
    && (a.ty.NewId? && server ==> ps[0] == Param(if request then Uint32 else WlResourcePtr, name))
    && (a.Typed() && !server && !request ==> ps[0] == Param(StructPtr(a.iface), name))
    && (a.Untyped() && !server && request ==>
          && ps[0] == Param(ConstWlInterfacePtr, if omit then "" else "interface")
          && ps[1] == Param(Uint32, if omit then "" else "version"))
    && (a.ty.Other? ==> ps[0] == Param(Word(a.ty.word), name))
  }

  lemma EventParamTypes(server: bool, request: bool, a: Argument, omit: bool)
    ensures DeclaredAs(server, request, a, omit, EventParam(server, request, a, omit))
  {
  }

  lemma {:induction false} ListLength(server: bool, e: Message, omit: bool, withResource: bool, n: nat)
    requires n <= |e.args|
    ensures |DeclaredBefore(server, e, omit, withResource, n)| == Place(server, e, withResource, n)
  {
    if n > 0 {
      ListLength(server, e, omit, withResource, n - 1);
      EventParamWidth(server, e.request, e.args[n - 1], omit);
    }
  }

  /** The tokens of xs stand in ps from position k on. */
  predicate StandsAt(ps: seq<Tok>, k: nat, xs: seq<Tok>) {
    k + |xs| <= |ps| && ps[k..k + |xs|] == xs
  }

  lemma StillStands(ps: seq<Tok>, more: seq<Tok>, k: nat, xs: seq<Tok>)
    requires StandsAt(ps, k, xs)
    ensures StandsAt(ps + more, k, xs)
  {
    assert (ps + more)[k..k + |xs|] == ps[k..k + |xs|];
  }

  lemma StandsLast(ps: seq<Tok>, xs: seq<Tok>)
    ensures StandsAt(ps + xs, |ps|, xs)
  {
  }

  /** The parameters of argument i stand at its place. */
  lemma {:induction false} PlacedUpTo(server: bool, e: Message, omit: bool, withResource: bool, i: nat, n: nat)
    requires i < n <= |e.args|
    ensures StandsAt(DeclaredBefore(server, e, omit, withResource, n), Place(server, e, withResource, i),
                     EventParam(server, e.request, e.args[i], omit))
  {
    var front, more := DeclaredBefore(server, e, omit, withResource, n - 1), EventParam(server, e.request, e.args[n - 1], omit);
    if i < n - 1 {
      PlacedUpTo(server, e, omit, withResource, i, n - 1);
      StillStands(front, more, Place(server, e, withResource, i), EventParam(server, e.request, e.args[i], omit));
    } else {
      ListLength(server, e, omit, withResource, i);
      StandsLast(front, more);
    }
  }

  /** The virtual method, or the sender, declares each argument at its place, after the resource if it takes one. */
  lemma DeclaredTypes(server: bool, e: Message, omit: bool, withResource: bool, i: nat)
    requires i < |e.args|
    ensures var ps, k := Declared(server, e, omit, withResource), Place(server, e, withResource, i);
            && |ps| == Place(server, e, withResource, |e.args|)
            && k + Width(server, e.request, e.args[i]) <= |ps|
            && DeclaredAs(server, e.request, e.args[i], omit, ps[k..k + Width(server, e.request, e.args[i])])
  {
    DeclaredBeforeIs(server, e, omit, withResource, |e.args|);
    ListLength(server, e, omit, withResource, |e.args|);
    PlacedUpTo(server, e, omit, withResource, i, |e.args|);
    EventParamTypes(server, e.request, e.args[i], omit);
  }

  /** What is declared in front of the arguments: a resource for server requests, and for server events if asked for. */
  lemma DeclaredHead(server: bool, e: Message, omit: bool, withResource: bool)
    ensures var ps, name := Declared(server, e, omit, withResource), if omit then "" else "resource";
            && (server && e.request ==> ps != [] && ps[0] == Param(ResourcePtr, name))
            && (server && !e.request && withResource ==> ps != [] && ps[0] == Param(WlResourcePtr, name))
            && (!server || (!e.request && !withResource) ==> ps == EventParams(server, e.request, e.args, omit))
  {
  }

  /** The variable a printed argument is made from. */
  function NameOf(x: Tok): string {
    if x.Arg? && !x.e.MemberHandle? then x.e.n else ""
  }

  /** Adapters and senders pass argument i as their i-th, after what is passed first. */
  lemma PassedInOrder(iface: string, e: Message, i: nat)
    requires i < |e.args|
    ensures |AdapterArgs(e)| == |ForwardArgs(e)| == |SendArgs(e)| == |e.args| + 1 && |ConvertedArgs(e)| == |e.args|
    ensures AdapterArgs(e)[0] == Arg(Name("r")) && ForwardArgs(e)[0] == Arg(MemberHandle) && SendArgs(e)[0] == Arg(Name("resource"))
    ensures |HandlerParams(true, iface, e)| == |HandlerParams(false, iface, e)| == |e.args| + 2
    // from the handler's parameters, on both sides
    ensures NameOf(AdapterArgs(e)[i + 1]) == HandlerParams(true, iface, e)[i + 2].name
    ensures NameOf(ConvertedArgs(e)[i]) == HandlerParams(false, iface, e)[i + 2].name
    // from the sender's
    ensures var ps := Declared(true, e.(request := false), false, false);
            |ps| == |e.args| && ps[i].Param? && NameOf(ForwardArgs(e)[i + 1]) == NameOf(SendArgs(e)[i + 1]) == ps[i].name
  {
    HandlerParamTypes(true, iface, e, i);
    HandlerParamTypes(false, iface, e, i);
    SenderParam(e.(request := false), i);
  }

  lemma SenderParam(e: Message, i: nat)
    requires i < |e.args| && !e.request
    ensures var ps := Declared(true, e, false, false); |ps| == |e.args| && ps[i].Param? && ps[i].name == e.args[i].name
  {
    ServerPlaces(e, i);
    ServerPlaces(e, |e.args|);
    DeclaredTypes(true, e, false, false, i);
    assert Declared(true, e, false, false)[i..i + 1][0] == Declared(true, e, false, false)[i];
  }

  lemma {:induction false} ServerPlaces(e: Message, i: nat)
    requires i <= |e.args| && !e.request
    ensures Place(true, e, false, i) == i
  {
    if i > 0 {
      ServerPlaces(e, i - 1);
    }
  }

  /** How many of the first n arguments are arrays. */
  function Arrays(args: seq<Argument>, n: nat): nat
    requires n <= |args|
  {
    if n == 0 then 0 else Arrays(args, n - 1) + (if args[n - 1].ty.Array? then 1 else 0)
  }

  /** The array locals are declared in the order of the arguments. */
  lemma {:induction false} LocalsInOrder(args: seq<Argument>, i: nat, n: nat)
    requires i < n <= |args| && args[i].ty.Array?
    ensures |ArrayNamesUpTo(args, n)| == Arrays(args, n)
    ensures Arrays(args, i) < Arrays(args, n) && ArrayNamesUpTo(args, n)[Arrays(args, i)] == args[i].name
  {
    if i < n - 1 {
      LocalsInOrder(args, i, n - 1);
    } else {
      LocalsCounted(args, i);
    }
  }

  lemma {:induction false} LocalsCounted(args: seq<Argument>, n: nat)
    requires n <= |args|
    ensures |ArrayNamesUpTo(args, n)| == Arrays(args, n)
  {
    if n > 0 {
      LocalsCounted(args, n - 1);
    }
  }
}
