/**
 The language of tools/waylandscanner/waylandscanner.cpp: message
 specifications on one side, comma-separated C++ lists on the other.
 */
module ScannerTypes {
  import opened Sequences

  /** The type attribute of an argument; Other is a word the scanner does not know. */
  datatype WlType = String | Int | Uint | Fixed | FileDescriptor | Array | Object | NewId | Other(word: string)

  datatype Argument = Argument(name: string, ty: WlType, iface: string) {
    predicate Untyped() { ty.NewId? && iface == "" }
    predicate Typed() { ty.NewId? && iface != "" }
  }

  datatype Message = Message(request: bool, name: string, args: seq<Argument>)

  datatype CppType =
    | ConstCharPtr | Int32 | Uint32 | WlFixed | WlArrayPtr
    | WlResourcePtr | WlObjectPtr | StructPtr(name: string)
    | ConstQStringRef | ConstQByteArrayRef
    | WlClientPtr | VoidPtr | ResourcePtr | ConstWlInterfacePtr
    | WlArray  // the local that stands for a byte array
    | QString  // a temporary
    | Word(word: string)

  datatype Expr =
    | Name(n: string)
    | FromUtf8(n: string)       // QString::fromUtf8(n)
    | ToUtf8(n: string)         // n.toUtf8().constData()
    | AddressOfData(n: string)  // &n_data
    | Member(n: string)         // the proxy the class holds
    | MemberHandle              // m_resource->handle

  datatype Tok = Comma | Param(cpp: CppType, name: string) | Arg(e: Expr)

  // ----- waylandToCType and waylandToQtType -----

  function CType(server: bool, a: Argument): CppType {
    match a.ty
    case String => ConstCharPtr
    case Int => Int32
    case Uint => Uint32
    case Fixed => WlFixed
    case FileDescriptor => Int32
    case Array => WlArrayPtr
    case Object => if server then WlResourcePtr else if a.iface == "" then WlObjectPtr else StructPtr(a.iface)
    case NewId => if server then WlResourcePtr else if a.iface == "" then WlObjectPtr else StructPtr(a.iface)
    case Other(word) => Word(word)
  }

  function QtType(server: bool, a: Argument, cStyleArray: bool): CppType {
    match a.ty
    case String => ConstQStringRef
    case Array => if cStyleArray then WlArrayPtr else ConstQByteArrayRef
    case _ => CType(server, a)
  }

  // ----- Comma-separated lists -----

  ghost predicate Items(xs: seq<Tok>) {
    forall i :: 0 <= i < |xs| ==> !xs[i].Comma?
  }

  /** The first n items with commas between them. */
  function JoinUpTo(xs: seq<Tok>, n: nat): seq<Tok>
    requires n <= |xs|
  {
    if n == 0 then [] else if n == 1 then [xs[0]] else JoinUpTo(xs, n - 1) + [Comma, xs[n - 1]]
  }

  function Join(xs: seq<Tok>): seq<Tok> { JoinUpTo(xs, |xs|) }

  /** What a C++ parser makes of the first n tokens of a printed list: the items, or an error. */
  function ParseUpTo(ts: seq<Tok>, n: nat): Option<seq<Tok>>
    requires n <= |ts|
  {
    if n == 0 then Some([])
    else if ts[n - 1].Comma? then None
    else if n == 1 then Some([ts[0]])
    else if !ts[n - 2].Comma? then None
    else match ParseUpTo(ts, n - 2)
      case None => None
      case Some(xs) => if xs == [] then None else Some(xs + [ts[n - 1]])
  }

  function Parse(ts: seq<Tok>): Option<seq<Tok>> { ParseUpTo(ts, |ts|) }

  ghost predicate Agree(xs: seq<Tok>, ys: seq<Tok>, n: nat) {
    n <= |xs| && n <= |ys| && forall i :: 0 <= i < n ==> xs[i] == ys[i]
  }

  lemma {:induction false} SameJoin(xs: seq<Tok>, ys: seq<Tok>, n: nat)
    requires Agree(xs, ys, n)
    ensures JoinUpTo(xs, n) == JoinUpTo(ys, n)
  {
    if n <= 1 {
    } else {
      SameJoin(xs, ys, n - 1);
    }
  }

  lemma {:induction false} SameParse(ts: seq<Tok>, us: seq<Tok>, n: nat)
    requires Agree(ts, us, n)
    ensures ParseUpTo(ts, n) == ParseUpTo(us, n)
  {
    if n <= 1 {
    } else {
      SameParse(ts, us, n - 2);
    }
  }

  lemma JoinExtend(xs: seq<Tok>, x: Tok)
    ensures Join(xs + [x]) == if xs == [] then [x] else Join(xs) + [Comma, x]
  {
    SameJoin(xs, xs + [x], |xs|);
  }

  lemma JoinPair(x: Tok, y: Tok)
    ensures Join([x, y]) == [x, Comma, y]
  {
    assert JoinUpTo([x, y], 1) == [x];
  }

  /** How a list goes on with more items. */
  function Continued(needsComma: bool, more: seq<Tok>): seq<Tok> {
    if needsComma && more != [] then [Comma] + Join(more) else Join(more)
  }

  lemma ConcatAssoc(a: seq<Tok>, b: seq<Tok>, c: seq<Tok>)
    ensures (a + b) + c == a + (b + c)
  {
  }

  lemma {:induction false} JoinAppendUpTo(xs: seq<Tok>, ys: seq<Tok>, n: nat)
    requires xs != [] && 0 < n <= |ys|
    ensures JoinUpTo(xs + ys, |xs| + n) == Join(xs) + [Comma] + JoinUpTo(ys, n)
  {
    if n == 1 {
      SameJoin(xs, xs + ys, |xs|);
      assert (xs + ys)[|xs|] == ys[0];
    } else {
      JoinAppendUpTo(xs, ys, n - 1);
      assert (xs + ys)[|xs| + n - 1] == ys[n - 1];
      ConcatAssoc(Join(xs) + [Comma], JoinUpTo(ys, n - 1), [Comma, ys[n - 1]]);
    }
  }

  lemma JoinAppend(xs: seq<Tok>, ys: seq<Tok>)
    ensures Join(xs + ys) == Join(xs) + Continued(xs != [], ys)
  {
    if xs == [] {
      assert xs + ys == ys && Join(xs) == [];
      assert [] + Join(ys) == Join(ys);
    } else if ys == [] {
      assert xs + ys == xs && Join(ys) == [];
      assert Join(xs) + [] == Join(xs);
    } else {
      JoinAppendUpTo(xs, ys, |ys|);
      ConcatAssoc(Join(xs), [Comma], Join(ys));
    }
  }

  lemma {:induction false} ParseJoinUpTo(xs: seq<Tok>, n: nat)
    requires Items(xs) && n <= |xs|
    ensures Parse(JoinUpTo(xs, n)).Some?
    ensures |Parse(JoinUpTo(xs, n)).value| == n && Agree(Parse(JoinUpTo(xs, n)).value, xs, n)
  {
    if n <= 1 {
    } else {
      var front, ts := JoinUpTo(xs, n - 1), JoinUpTo(xs, n);
      ParseJoinUpTo(xs, n - 1);
      SameParse(front, ts, |front|);
      assert ts[|ts| - 1] == xs[n - 1] && ts[|ts| - 2] == Comma;
    }
  }

  /** Printing and parsing lists are inverse to each other. */
  lemma ParseJoin(xs: seq<Tok>)
    requires Items(xs)
    ensures Parse(Join(xs)) == Some(xs)
  {
    ParseJoinUpTo(xs, |xs|);
    assert Parse(Join(xs)).value == xs;
  }

  lemma {:induction false} JoinParseUpTo(ts: seq<Tok>, n: nat)
    requires n <= |ts| && ParseUpTo(ts, n).Some?
    ensures Items(ParseUpTo(ts, n).value)
    ensures |Join(ParseUpTo(ts, n).value)| == n && Agree(Join(ParseUpTo(ts, n).value), ts, n)
  {
    if n <= 1 {
    } else {
      JoinParseUpTo(ts, n - 2);
      JoinExtend(ParseUpTo(ts, n - 2).value, ts[n - 1]);
    }
  }

  lemma JoinParse(ts: seq<Tok>)
    requires Parse(ts).Some?
    ensures Items(Parse(ts).value) && Join(Parse(ts).value) == ts
  {
    JoinParseUpTo(ts, |ts|);
  }

  lemma {:induction false} MissingCommaUpTo(first: Tok, xs: seq<Tok>, n: nat)
    requires !first.Comma? && Items(xs) && 0 < n <= |xs|
    ensures Parse([first] + JoinUpTo(xs, n)) == None
  {
    var ts := [first] + JoinUpTo(xs, n);
    if n == 1 {
      assert ts == [first, xs[0]];
    } else {
      var front := [first] + JoinUpTo(xs, n - 1);
      MissingCommaUpTo(first, xs, n - 1);
      SameParse(front, ts, |front|);
      assert |ts| == |front| + 2 && ts[|ts| - 1] == xs[n - 1];
    }
  }

  /** Without a comma after the first item, a list that goes on is an error. */
  lemma MissingComma(first: Tok, xs: seq<Tok>)
    requires !first.Comma? && Items(xs) && xs != []
    ensures Parse([first] + Join(xs)) == None
  {
    MissingCommaUpTo(first, xs, |xs|);
  }

  lemma JoinFirst(first: Tok, xs: seq<Tok>)
    requires xs != []
    ensures Join([first] + xs) == [first, Comma] + Join(xs)
  {
    JoinAppend([first], xs);
    assert [first] + ([Comma] + Join(xs)) == [first, Comma] + Join(xs);
  }

  // ----- A typing judgement for printed calls -----

  /** The declaration from the i-th on that a name refers to. */
  function LookupFrom(scope: seq<Tok>, n: string, i: nat): Option<CppType>
    requires i <= |scope|
    decreases |scope| - i
  {
    if i == |scope| then None
    else if scope[i].Param? && scope[i].name == n then Some(scope[i].cpp)
    else LookupFrom(scope, n, i + 1)
  }

  function Lookup(scope: seq<Tok>, n: string): Option<CppType> { LookupFrom(scope, n, 0) }

  /** A member is out of reach where a parameter or a local has its name. */
  function TypeOf(e: Expr, scope: seq<Tok>, member: CppType): Option<CppType> {
    match e
    case Name(n) => Lookup(scope, n)
    case FromUtf8(n) => if Lookup(scope, n) == Some(ConstCharPtr) then Some(QString) else None
    case ToUtf8(n) => if Lookup(scope, n) == Some(ConstQStringRef) then Some(ConstCharPtr) else None
    case AddressOfData(n) => if Lookup(scope, DataName(n)) == Some(WlArray) then Some(WlArrayPtr) else None
    case Member(n) => if Lookup(scope, n).Some? then None else Some(member)
    case MemberHandle => if Lookup(scope, "m_resource").Some? then None else Some(WlResourcePtr)
  }

  /** The local that stands for the array x. */
  function DataName(x: string): string { x + "_data" }

  lemma DataNameInjective(x: string, y: string)
    requires DataName(x) == DataName(y)
    ensures x == y
  {
    assert |x| == |y|;
    forall i | 0 <= i < |x| ensures x[i] == y[i] {
      assert DataName(x)[i] == x[i] && DataName(y)[i] == y[i];
    }
  }

  predicate Accepts(parameter: CppType, argument: Option<CppType>) {
    argument.Some? && (argument.value == parameter || (parameter.ConstQStringRef? && argument.value.QString?))
  }

  /** The printed arguments fit the parameters of the callee, position by position. */
  ghost predicate WellTyped(args: seq<Tok>, params: seq<Tok>, scope: seq<Tok>, member: CppType) {
    && |args| == |params|
    && forall i :: 0 <= i < |args| ==>
         args[i].Arg? && params[i].Param? && Accepts(params[i].cpp, TypeOf(args[i].e, scope, member))
  }

  ghost predicate DistinctNames(scope: seq<Tok>) {
    && (forall i :: 0 <= i < |scope| ==> scope[i].Param?)
    && (forall i, j :: 0 <= i < j < |scope| ==> scope[i].name != scope[j].name)
  }

  lemma {:induction false} LookupDistinctFrom(scope: seq<Tok>, k: nat, i: nat)
    requires DistinctNames(scope) && i <= k < |scope|
    ensures LookupFrom(scope, scope[k].name, i) == Some(scope[k].cpp)
    decreases k - i
  {
    if i == k {
    } else {
      LookupDistinctFrom(scope, k, i + 1);
    }
  }

  lemma LookupDistinct(scope: seq<Tok>, k: nat)
    requires DistinctNames(scope) && k < |scope|
    ensures Lookup(scope, scope[k].name) == Some(scope[k].cpp)
  {
    LookupDistinctFrom(scope, k, 0);
  }

  ghost predicate Declares(scope: seq<Tok>, n: string) {
    exists k :: 0 <= k < |scope| && scope[k].Param? && scope[k].name == n
  }

  lemma {:induction false} LookupFromDeclared(scope: seq<Tok>, n: string, i: nat)
    requires i <= |scope|
    ensures LookupFrom(scope, n, i).Some? <==> exists k :: i <= k < |scope| && scope[k].Param? && scope[k].name == n
    decreases |scope| - i
  {
    if i == |scope| {
    } else {
      LookupFromDeclared(scope, n, i + 1);
    }
  }

  lemma LookupDeclared(scope: seq<Tok>, n: string)
    ensures Lookup(scope, n).Some? <==> Declares(scope, n)
  {
    LookupFromDeclared(scope, n, 0);
  }

  lemma DeclaresConcat(xs: seq<Tok>, ys: seq<Tok>, n: string)
    ensures Declares(xs + ys, n) <==> Declares(xs, n) || Declares(ys, n)
  {
    if k :| 0 <= k < |xs| && xs[k].Param? && xs[k].name == n {
      assert (xs + ys)[k] == xs[k];
    }
    if k :| 0 <= k < |ys| && ys[k].Param? && ys[k].name == n {
      assert (xs + ys)[|xs| + k] == ys[k];
    }
  }

  /** Two lists of declarations in one scope. */
  lemma DistinctConcat(xs: seq<Tok>, ys: seq<Tok>)
    ensures DistinctNames(xs + ys) <==>
              DistinctNames(xs) && DistinctNames(ys) && forall n :: !(Declares(xs, n) && Declares(ys, n))
  {
    if DistinctNames(xs + ys) {
      DistinctParts(xs, ys);
    } else if DistinctNames(xs) && DistinctNames(ys) && forall n :: !(Declares(xs, n) && Declares(ys, n)) {
      DistinctWhole(xs, ys);
    }
  }

  lemma DistinctParts(xs: seq<Tok>, ys: seq<Tok>)
    requires DistinctNames(xs + ys)
    ensures DistinctNames(xs) && DistinctNames(ys) && forall n :: !(Declares(xs, n) && Declares(ys, n))
  {
    var zs := xs + ys;
    assert forall i :: 0 <= i < |xs| ==> xs[i] == zs[i];
    assert forall i :: 0 <= i < |ys| ==> ys[i] == zs[|xs| + i];
  }

  lemma DistinctWhole(xs: seq<Tok>, ys: seq<Tok>)
    requires DistinctNames(xs) && DistinctNames(ys) && forall n :: !(Declares(xs, n) && Declares(ys, n))
    ensures DistinctNames(xs + ys)
  {
    var zs := xs + ys;
    forall i, j | 0 <= i < j < |zs| ensures zs[i].Param? && zs[j].Param? && zs[i].name != zs[j].name {
      if i < |xs| <= j {
        assert Declares(xs, xs[i].name) && zs[j] == ys[j - |xs|];
      }
    }
    assert forall i :: 0 <= i < |zs| ==> zs[i].Param?;
  }
}
