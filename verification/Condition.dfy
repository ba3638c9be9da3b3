/** The condition tree of internal/rules/condition.go: what a well-formed tree is,
    what it says about a request, and its compilation into a matcher. */
module Condition {
  import opened Wrappers
  import opened Facts
  import opened Net
  import opened Sequences

  /** A value as it lies in rules.json; a number is whole or it is a fraction. */
  datatype Json = Null | Boolean(b: bool) | Whole(n: int) | Fraction | Str(s: string) | List(items: seq<Json>) | Object

  /** Absent and null leave a member out; an empty list is still a list. */
  datatype Tree = Tree(all: Children, any: Children, negated: Child, field: string, op: string, value: Option<Json>)

  datatype Children = NoList | Listed(list: seq<Tree>)

  datatype Child = NoChild | Only(tree: Tree)

  datatype Parsers = Parsers(addr: string -> Option<Addr>, prefix: string -> Option<Prefix>)

  type Matcher = Request -> bool

  datatype Turn = All(i: nat) | Any(i: nat) | Not

  datatype Error = Error(path: seq<Turn>, problem: Problem)

  datatype Problem =
    | SeveralComposites | CompositeAndComparison | Empty | EmptyJunction
    | NoField | UnknownField | NoOp | WrongOp | NoValue | WrongValue | EmptyList | EmptyText | NotANetwork

  // ---------------------------------------------------------------- decoding

  /** encoding/json into a bool, an int and a string: null leaves the zero value. */
  function AsBool(v: Json): Option<bool> {
    match v
    case Null => Some(false)
    case Boolean(b) => Some(b)
    case _ => None
  }

  function AsInt(v: Json): Option<int> {
    match v
    case Null => Some(0)
    case Whole(n) => if -0x8000_0000_0000_0000 <= n < 0x8000_0000_0000_0000 then Some(n) else None
    case _ => None
  }

  function AsString(v: Json): Option<string> {
    match v
    case Null => Some("")
    case Str(s) => Some(s)
    case _ => None
  }

  predicate AllDecode<T>(items: seq<Json>, read: Json -> Option<T>) {
    forall i | 0 <= i < |items| :: read(items[i]).Some?
  }

  function AsList<T>(v: Json, read: Json -> Option<T>): (r: Option<seq<T>>)
    ensures r.Some? <==> v.Null? || (v.List? && AllDecode(v.items, read))
    ensures r.Some? && v.List? ==>
              |r.value| == |v.items| && forall i | 0 <= i < |v.items| :: read(v.items[i]) == Some(r.value[i])
    ensures r.Some? && v.Null? ==> r.value == []
  {
    match v
    case Null => Some([])
    case List(items) =>
      if AllDecode(items, read) then Some(seq(|items|, i requires 0 <= i < |items| => read(items[i]).value)) else None
    case _ => None
  }

  // ---------------------------------------------------------------- meaning

  const TEXT_OPS := {"eq", "ne", "in", "not_in", "contains", "prefix", "suffix"}

  function Operators(kind: Kind): set<string> {
    match kind
    case KindNumber => {"eq", "ne", "gt", "gte", "lt", "lte", "in", "not_in"}
    case KindBool => {"eq", "ne"}
    case KindAddr => TEXT_OPS + {"cidr", "not_cidr"}
    case KindString => TEXT_OPS
  }

  predicate Comparison(t: Tree) {
    t.field != "" || t.op != "" || t.value.Some?
  }

  function Composites(t: Tree): nat {
    (if t.all.Listed? then 1 else 0) + (if t.any.Listed? then 1 else 0) + (if t.negated.Only? then 1 else 0)
  }

  /** The node taken alone is in order: it is one thing, and complete. */
  predicate Sound(parse: Parsers, t: Tree) {
    if Composites(t) == 0 then Comparison(t) && Comparable(parse, t.field, t.op, t.value)
    else Composites(t) == 1 && !Comparison(t) && t.all != Listed([]) && t.any != Listed([])
  }

  predicate Comparable(parse: Parsers, field: string, op: string, value: Option<Json>) {
    && FieldKind(field).Some?
    && op in Operators(FieldKind(field).value)
    && value.Some?
    && match FieldKind(field).value
       case KindBool => AsBool(value.value).Some?
       case KindNumber =>
         if op in {"in", "not_in"} then NonEmptyList(value.value, AsInt) else AsInt(value.value).Some?
       case _ =>
         if op in {"cidr", "not_cidr"} then
           && NonEmptyList(value.value, AsString)
           && forall s | s in AsList(value.value, AsString).value :: parse.prefix(s).Some?
         else if op in {"in", "not_in"} then NonEmptyList(value.value, AsString)
         else AsString(value.value).Some?
              && (op in {"contains", "prefix", "suffix"} ==> AsString(value.value).value != "")
  }

  predicate NonEmptyList<T(==)>(v: Json, read: Json -> Option<T>) {
    AsList(v, read).Some? && AsList(v, read).value != []
  }

  predicate WellFormed(parse: Parsers, t: Tree)
    decreases t
  {
    && Sound(parse, t)
    && (t.all.Listed? ==> forall i | 0 <= i < |t.all.list| :: WellFormed(parse, t.all.list[i]))
    && (t.any.Listed? ==> forall i | 0 <= i < |t.any.list| :: WellFormed(parse, t.any.list[i]))
    && (t.negated.Only? ==> WellFormed(parse, t.negated.tree))
  }

  function ReadText(r: Request, field: string): string {
    match ValueOf(r, field) case Some(Text(s)) => s case _ => ""
  }

  function ReadNumber(r: Request, field: string): int {
    match ValueOf(r, field) case Some(Number(n)) => n case _ => 0
  }

  function ReadFlag(r: Request, field: string): bool {
    match ValueOf(r, field) case Some(Flag(b)) => b case _ => false
  }

  predicate ContainsText(s: string, part: string) {
    exists i | 0 <= i <= |s| - |part| :: StartsAt(s, i, part)
  }

  predicate StartsAt(s: string, i: nat, part: string)
    requires i + |part| <= |s|
  {
    s[i..i + |part|] == part
  }

  predicate EndsWith(s: string, tail: string) {
    |tail| <= |s| && s[|s| - |tail|..] == tail
  }

  /** The address is in one of the listed networks, compared in its own family. */
  predicate InSome(parse: Parsers, list: seq<string>, a: Addr) {
    exists i | 0 <= i < |list| :: parse.prefix(list[i]).Some? && Contains(parse.prefix(list[i]).value, a)
  }

  predicate Inside(parse: Parsers, list: Option<seq<string>>, s: string) {
    match parse.addr(s)
    case None => false
    case Some(a) => list.Some? && InSome(parse, list.value, Unmap(a))
  }

  /** Not the complement: an address that does not parse is neither inside nor outside. */
  predicate Outside(parse: Parsers, list: Option<seq<string>>, s: string) {
    match parse.addr(s)
    case None => false
    case Some(a) => list.Some? && !InSome(parse, list.value, Unmap(a))
  }

  /** What a comparison says about a request. */
  predicate Says(parse: Parsers, field: string, op: string, value: Json, r: Request)
    requires Comparable(parse, field, op, Some(value))
  {
    match FieldKind(field).value
    case KindBool =>
      (ReadFlag(r, field) == AsBool(value).value) == (op == "eq")
    case KindNumber =>
      var n := ReadNumber(r, field);
      (match op
       case "in" => n in AsList(value, AsInt).value
       case "not_in" => n !in AsList(value, AsInt).value
       case "eq" => n == AsInt(value).value
       case "ne" => n != AsInt(value).value
       case "gt" => n > AsInt(value).value
       case "gte" => n >= AsInt(value).value
       case "lt" => n < AsInt(value).value
       case _ => n <= AsInt(value).value)
    case _ =>
      var s := ReadText(r, field);
      match op
      case "in" => s in AsList(value, AsString).value
      case "not_in" => s !in AsList(value, AsString).value
      case "eq" => s == AsString(value).value
      case "ne" => s != AsString(value).value
      case "contains" => ContainsText(s, AsString(value).value)
      case "prefix" => AsString(value).value <= s
      case "suffix" => EndsWith(s, AsString(value).value)
      case "cidr" => Inside(parse, AsList(value, AsString), s)
      case _ => Outside(parse, AsList(value, AsString), s)
  }

  /** What a well-formed tree says about a request. */
  predicate Holds(parse: Parsers, t: Tree, r: Request)
    requires WellFormed(parse, t)
    decreases t
  {
    if t.all.Listed? then forall i | 0 <= i < |t.all.list| :: Holds(parse, t.all.list[i], r)
    else if t.any.Listed? then exists i | 0 <= i < |t.any.list| :: Holds(parse, t.any.list[i], r)
    else if t.negated.Only? then !Holds(parse, t.negated.tree, r)
    else Says(parse, t.field, t.op, t.value.value, r)
  }

  /** The path leads to a node of the tree that is not in order by itself. */
  predicate Blames(parse: Parsers, t: Tree, path: seq<Turn>)
    decreases |path|
  {
    if path == [] then !Sound(parse, t)
    else match path[0]
      case All(i) => t.all.Listed? && i < |t.all.list| && Blames(parse, t.all.list[i], path[1..])
      case Any(i) => t.any.Listed? && i < |t.any.list| && Blames(parse, t.any.list[i], path[1..])
      case Not => t.negated.Only? && Blames(parse, t.negated.tree, path[1..])
  }

  // ---------------------------------------------------------------- compilation

  /** The matcher of a tree: it answers for every request as the tree says. */
  ghost predicate Means(parse: Parsers, t: Tree, m: Matcher) {
    WellFormed(parse, t) && forall r :: m(r) == Holds(parse, t, r)
  }

  ghost predicate MeansComparison(parse: Parsers, field: string, op: string, value: Json, m: Matcher) {
    Comparable(parse, field, op, Some(value)) && forall r :: m(r) == Says(parse, field, op, value, r)
  }

  /** Validates the tree and turns it into a function. */
  method Compile(parse: Parsers, t: Tree, path: seq<Turn>) returns (m: Result<Matcher, Error>)
    ensures m.Ok? <==> WellFormed(parse, t)
    ensures m.Ok? ==> Means(parse, t, m.value)
    ensures m.Err? ==> path <= m.error.path && Blames(parse, t, m.error.path[|path|..])
    decreases t, 1
  {
    if Composites(t) > 1 {
      return Err(Error(path, SeveralComposites));
    }
    if Composites(t) == 1 && Comparison(t) {
      return Err(Error(path, CompositeAndComparison));
    }
    if Composites(t) == 0 && !Comparison(t) {
      return Err(Error(path, Empty));
    }
    if t.all.Listed? {
      m := Junction(parse, t, path, t.all.list, true);
    } else if t.any.Listed? {
      m := Junction(parse, t, path, t.any.list, false);
    } else if t.negated.Only? {
      var inner := Compile(parse, t.negated.tree, path + [Not]);
      if inner.Err? {
        return Err(inner.error);
      }
      var f := inner.value;
      return Ok(r => !f(r));
    } else {
      m := Compare(parse, path, t.field, t.op, t.value);
    }
  }

  /** Compiles the children of all or any, one after the other. */
  method Junction(parse: Parsers, t: Tree, path: seq<Turn>, children: seq<Tree>, all: bool)
    returns (m: Result<Matcher, Error>)
    requires Composites(t) == 1 && !Comparison(t)
    requires if all then t.all == Listed(children) else t.any == Listed(children)
    ensures m.Ok? <==> WellFormed(parse, t)
    ensures m.Ok? ==> Means(parse, t, m.value)
    ensures m.Err? ==> path <= m.error.path && Blames(parse, t, m.error.path[|path|..])
    decreases t, 0
  {
    if |children| == 0 {
      return Err(Error(path, EmptyJunction));
    }
    var matchers: seq<Matcher> := [];
    for i := 0 to |children|
      invariant |matchers| == i
      invariant forall k | 0 <= k < i :: Means(parse, children[k], matchers[k])
    {
      var turn := if all then All(i) else Any(i);
      var child := Compile(parse, children[i], path + [turn]);
      if child.Err? {
        return Err(child.error);
      }
      matchers := matchers + [child.value];
    }
    var list := matchers;
    if all {
      return Ok(r => NoneFails(list, 0, r));
    } else {
      return Ok(r => OneMatches(list, 0, r));
    }
  }

  /** Asks the matchers from the i-th on, until one says no. */
  predicate NoneFails(list: seq<Matcher>, i: nat, r: Request)
    requires i <= |list|
    ensures NoneFails(list, i, r) <==> forall k | i <= k < |list| :: list[k](r)
    decreases |list| - i
  {
    i == |list| || (list[i](r) && NoneFails(list, i + 1, r))
  }

  /** Asks the matchers from the i-th on, until one says yes. */
  predicate OneMatches(list: seq<Matcher>, i: nat, r: Request)
    requires i <= |list|
    ensures OneMatches(list, i, r) <==> exists k | i <= k < |list| :: list[k](r)
    decreases |list| - i
  {
    i < |list| && (list[i](r) || OneMatches(list, i + 1, r))
  }

  method Compare(parse: Parsers, path: seq<Turn>, field: string, op: string, value: Option<Json>)
    returns (m: Result<Matcher, Error>)
    ensures m.Ok? <==> Comparable(parse, field, op, value)
    ensures m.Ok? ==> MeansComparison(parse, field, op, value.value, m.value)
    ensures m.Err? ==> m.error.path == path
  {
    if field == "" {
      return Err(Error(path, NoField));
    }
    var kind := FieldKind(field);
    if kind.None? {
      return Err(Error(path, UnknownField));
    }
    if op == "" {
      return Err(Error(path, NoOp));
    }
    if op !in Operators(kind.value) {
      return Err(Error(path, WrongOp));
    }
    if value.None? {
      return Err(Error(path, NoValue));
    }
    var raw := value.value;
    match kind.value {
      case KindBool => m := BoolCompare(parse, path, field, op, raw);
      case KindNumber => m := NumberCompare(parse, path, field, op, raw);
      case KindAddr =>
        if op == "cidr" || op == "not_cidr" {
          m := Networks(parse, path, field, op, op == "not_cidr", raw);
        } else {
          m := StringCompare(parse, path, field, op, raw);
        }
      case KindString => m := StringCompare(parse, path, field, op, raw);
    }
  }

  method BoolCompare(parse: Parsers, path: seq<Turn>, field: string, op: string, value: Json)
    returns (m: Result<Matcher, Error>)
    requires FieldKind(field) == Some(KindBool) && op in Operators(KindBool)
    ensures m.Ok? <==> Comparable(parse, field, op, Some(value))
    ensures m.Ok? ==> MeansComparison(parse, field, op, value, m.value)
    ensures m.Err? ==> m.error.path == path
  {
    var decoded := AsBool(value);
    if decoded.None? {
      return Err(Error(path, WrongValue));
    }
    var want := decoded.value;
    if op == "ne" {
      want := !want;
    }
    var wanted := want;
    return Ok(r => ReadFlag(r, field) == wanted);
  }

  /** What a loop over the list gathers: the values in it, for a lookup in one step. */
  method Gathered<T(==)>(list: seq<T>) returns (values: set<T>)
    ensures forall x :: x in values <==> x in list
  {
    values := {};
    for i := 0 to |list|
      invariant forall x :: x in values <==> x in list[..i]
    {
      values := values + {list[i]};
    }
  }

  method NumberCompare(parse: Parsers, path: seq<Turn>, field: string, op: string, value: Json)
    returns (m: Result<Matcher, Error>)
    requires FieldKind(field) == Some(KindNumber) && op in Operators(KindNumber)
    ensures m.Ok? <==> Comparable(parse, field, op, Some(value))
    ensures m.Ok? ==> MeansComparison(parse, field, op, value, m.value)
    ensures m.Err? ==> m.error.path == path
  {
    if op == "in" || op == "not_in" {
      var list := AsList(value, AsInt);
      if list.None? {
        return Err(Error(path, WrongValue));
      }
      if list.value == [] {
        return Err(Error(path, EmptyList));
      }
      var values := Gathered(list.value);
      var negated := op == "not_in";
      return Ok(r => (ReadNumber(r, field) in values) != negated);
    }
    var decoded := AsInt(value);
    if decoded.None? {
      return Err(Error(path, WrongValue));
    }
    var want := decoded.value;
    match op {
      case "eq" => return Ok(r => ReadNumber(r, field) == want);
      case "ne" => return Ok(r => ReadNumber(r, field) != want);
      case "gt" => return Ok(r => ReadNumber(r, field) > want);
      case "gte" => return Ok(r => ReadNumber(r, field) >= want);
      case "lt" => return Ok(r => ReadNumber(r, field) < want);
      case _ => return Ok(r => ReadNumber(r, field) <= want);
    }
  }

  method StringCompare(parse: Parsers, path: seq<Turn>, field: string, op: string, value: Json)
    returns (m: Result<Matcher, Error>)
    requires FieldKind(field) in {Some(KindString), Some(KindAddr)} && op in TEXT_OPS
    ensures m.Ok? <==> Comparable(parse, field, op, Some(value))
    ensures m.Ok? ==> MeansComparison(parse, field, op, value, m.value)
    ensures m.Err? ==> m.error.path == path
  {
    if op == "in" || op == "not_in" {
      var list := AsList(value, AsString);
      if list.None? {
        return Err(Error(path, WrongValue));
      }
      if list.value == [] {
        return Err(Error(path, EmptyList));
      }
      var values := Gathered(list.value);
      var negated := op == "not_in";
      return Ok(r => (ReadText(r, field) in values) != negated);
    }
    var decoded := AsString(value);
    if decoded.None? {
      return Err(Error(path, WrongValue));
    }
    var want := decoded.value;
    if op == "eq" {
      return Ok(r => ReadText(r, field) == want);
    }
    if op == "ne" {
      return Ok(r => ReadText(r, field) != want);
    }
    if want == "" {
      return Err(Error(path, EmptyText));
    }
    match op {
      case "contains" => return Ok(r => ContainsText(ReadText(r, field), want));
      case "prefix" => return Ok(r => want <= ReadText(r, field));
      case _ => return Ok(r => EndsWith(ReadText(r, field), want));
    }
  }

  /** Lays the listed networks out by family and masks each. */
  method Networks(parse: Parsers, path: seq<Turn>, field: string, op: string, negated: bool, value: Json)
    returns (m: Result<Matcher, Error>)
    requires FieldKind(field) == Some(KindAddr) && op in {"cidr", "not_cidr"} && negated == (op == "not_cidr")
    ensures m.Ok? <==> Comparable(parse, field, op, Some(value))
    ensures m.Ok? ==> MeansComparison(parse, field, op, value, m.value)
    ensures m.Err? ==> m.error.path == path
  {
    var list := AsList(value, AsString);
    if list.None? {
      return Err(Error(path, WrongValue));
    }
    if list.value == [] {
      return Err(Error(path, EmptyList));
    }
    var laid := ByFamily(parse, list.value);
    if laid.None? {
      return Err(Error(path, NotANetwork));
    }
    var v4, v6 := laid.value.v4, laid.value.v6;
    m := Ok(r => InNetworks(parse, v4, v6, negated, ReadText(r, field)));
    forall r
      ensures m.value(r) == Says(parse, field, op, value, r)
    {
      NetworksSay(parse, list.value, v4, v6, ReadText(r, field));
    }
  }

  datatype Families = Families(v4: seq<Prefix>, v6: seq<Prefix>)

  method ByFamily(parse: Parsers, list: seq<string>) returns (laid: Option<Families>)
    ensures laid.Some? <==> forall i | 0 <= i < |list| :: parse.prefix(list[i]).Some?
    ensures laid.Some? ==> LaidOut(parse, list, laid.value.v4, laid.value.v6)
  {
    var v4: seq<Prefix>, v6: seq<Prefix> := [], [];
    for i := 0 to |list|
      invariant forall k | 0 <= k < i :: parse.prefix(list[k]).Some?
      invariant LaidOut(parse, list[..i], v4, v6)
    {
      var parsed := parse.prefix(list[i]);
      if parsed.None? {
        return None;
      }
      var network := Masked(parsed.value);
      LayOut(parse, list[..i], list[i], v4, v6);
      TakeNext(list, i);
      if Is4(network.addr) {
        v4 := v4 + [network];
      } else {
        v6 := v6 + [network];
      }
    }
    TakeAll(list);
    return Some(Families(v4, v6));
  }

  predicate InNetworks(parse: Parsers, v4: seq<Prefix>, v6: seq<Prefix>, negated: bool, s: string) {
    var parsed := parse.addr(s);
    if parsed.None? then false
    else
      var addr := Unmap(parsed.value);
      HoldsOne(if Is4(addr) then v4 else v6, addr) != negated
  }

  predicate HoldsOne(list: seq<Prefix>, a: Addr) {
    exists i | 0 <= i < |list| :: Contains(list[i], a)
  }

  /** Every listed network is, masked, in the list of its family, and nothing else is. */
  ghost predicate LaidOut(parse: Parsers, list: seq<string>, v4: seq<Prefix>, v6: seq<Prefix>) {
    forall a: Addr :: InSome(parse, list, a) == HoldsOne(if Is4(a) then v4 else v6, a)
  }

  lemma OneMore(list: seq<Prefix>, n: Prefix, a: Addr)
    ensures HoldsOne(list + [n], a) == (HoldsOne(list, a) || Contains(n, a))
  {
    var more := list + [n];
    if Contains(n, a) {
      assert more[|list|] == n;
    }
    if HoldsOne(list, a) {
      var i :| 0 <= i < |list| && Contains(list[i], a);
      assert more[i] == list[i];
    }
  }

  lemma OneMoreListed(parse: Parsers, list: seq<string>, x: string, a: Addr)
    ensures InSome(parse, list + [x], a)
            == (InSome(parse, list, a) || (parse.prefix(x).Some? && Contains(parse.prefix(x).value, a)))
  {
    var more := list + [x];
    assert more[|list|] == x;
    if InSome(parse, list, a) {
      var i :| 0 <= i < |list| && parse.prefix(list[i]).Some? && Contains(parse.prefix(list[i]).value, a);
      assert more[i] == list[i];
    }
  }

  lemma LayOut(parse: Parsers, list: seq<string>, x: string, v4: seq<Prefix>, v6: seq<Prefix>)
    requires LaidOut(parse, list, v4, v6) && parse.prefix(x).Some?
    ensures var n := Masked(parse.prefix(x).value);
            if Is4(n.addr) then LaidOut(parse, list + [x], v4 + [n], v6)
            else LaidOut(parse, list + [x], v4, v6 + [n])
  {
    var n := Masked(parse.prefix(x).value);
    forall a: Addr
      ensures InSome(parse, list + [x], a)
              == HoldsOne(if Is4(a) then (if Is4(n.addr) then v4 + [n] else v4)
                          else (if Is4(n.addr) then v6 else v6 + [n]), a)
    {
      MaskingKeeps(parse.prefix(x).value, a);
      OneMoreListed(parse, list, x, a);
      OneMore(if Is4(a) then v4 else v6, n, a);
    }
  }

  /** Looking in the one family's list is a scan of them all. */
  lemma NetworksSay(parse: Parsers, list: seq<string>, v4: seq<Prefix>, v6: seq<Prefix>, s: string)
    requires LaidOut(parse, list, v4, v6)
    ensures InNetworks(parse, v4, v6, false, s) == Inside(parse, Some(list), s)
    ensures InNetworks(parse, v4, v6, true, s) == Outside(parse, Some(list), s)
  {
  }

  // ---------------------------------------------------------------- laws

  function AllOf(list: seq<Tree>): Tree {
    Tree(Listed(list), NoList, NoChild, "", "", None)
  }

  function AnyOf(list: seq<Tree>): Tree {
    Tree(NoList, Listed(list), NoChild, "", "", None)
  }

  function NotOf(t: Tree): Tree {
    Tree(NoList, NoList, Only(t), "", "", None)
  }

  /** A junction of one condition is that condition. */
  lemma JunctionOfOne(parse: Parsers, c: Tree, r: Request)
    requires WellFormed(parse, c)
    ensures Holds(parse, AllOf([c]), r) == Holds(parse, AnyOf([c]), r) == Holds(parse, c, r)
  {
    assert AllOf([c]).all.list[0] == c && AnyOf([c]).any.list[0] == c;
  }

  /** One more condition narrows `all` to what it says too, */
  lemma AllNarrows(parse: Parsers, list: seq<Tree>, c: Tree, r: Request)
    requires list != [] && WellFormed(parse, c) && forall i | 0 <= i < |list| :: WellFormed(parse, list[i])
    ensures Holds(parse, AllOf(list + [c]), r) <==> Holds(parse, AllOf(list), r) && Holds(parse, c, r)
  {
    var more := list + [c];
    assert more[|list|] == c && forall i | 0 <= i < |list| :: more[i] == list[i];
  }

  /** and widens `any` by what it says. */
  lemma AnyWidens(parse: Parsers, list: seq<Tree>, c: Tree, r: Request)
    requires list != [] && WellFormed(parse, c) && forall i | 0 <= i < |list| :: WellFormed(parse, list[i])
    ensures Holds(parse, AnyOf(list + [c]), r) <==> Holds(parse, AnyOf(list), r) || Holds(parse, c, r)
  {
    var more := list + [c];
    assert more[|list|] == c && forall i | 0 <= i < |list| :: more[i] == list[i];
  }

  /** Negation undoes itself, and of `all` of some conditions it makes `any` of their negations. */
  lemma NegationReads(parse: Parsers, list: seq<Tree>, r: Request)
    requires list != [] && forall i | 0 <= i < |list| :: WellFormed(parse, list[i])
    ensures Holds(parse, NotOf(NotOf(list[0])), r) == Holds(parse, list[0], r) != Holds(parse, NotOf(list[0]), r)
    ensures Holds(parse, NotOf(AllOf(list)), r) == Holds(parse, AnyOf(Negated(list)), r)
  {
    NotRead(parse, list[0], r);
    NotRead(parse, NotOf(list[0]), r);
    NotRead(parse, AllOf(list), r);
    forall i | 0 <= i < |list|
      ensures Holds(parse, Negated(list)[i], r) != Holds(parse, list[i], r)
    {
      NotRead(parse, list[i], r);
    }
  }

  function Negated(list: seq<Tree>): seq<Tree> {
    seq(|list|, i requires 0 <= i < |list| => NotOf(list[i]))
  }

  lemma NotRead(parse: Parsers, t: Tree, r: Request)
    requires WellFormed(parse, t)
    ensures Holds(parse, NotOf(t), r) != Holds(parse, t, r)
  {
  }

  /** What the operators on texts say, part by part; a null is the empty text. */
  lemma TextOperators(parse: Parsers, field: string, op: string, value: Json, r: Request)
    requires FieldKind(field) in {Some(KindString), Some(KindAddr)} && op !in {"cidr", "not_cidr"}
    requires Comparable(parse, field, op, Some(value))
    ensures var s, w, says := ReadText(r, field), AsString(value), Says(parse, field, op, value, r);
            match op
            case "eq" => says <==> Some(s) == w
            case "ne" => says <==> Some(s) != w
            case "contains" => w.Some? && (says <==> exists a, b :: s == a + w.value + b)
            case "prefix" => w.Some? && (says <==> exists b :: s == w.value + b)
            case "suffix" => w.Some? && (says <==> exists a :: s == a + w.value)
            case "in" => value.List? && (says <==> Lists(value.items, Str(s)))
            case _ => op == "not_in" && value.List? && (says <==> !Lists(value.items, Str(s)))
  {
    var s := ReadText(r, field);
    if op in {"contains", "prefix", "suffix"} {
      var w := AsString(value).value;
      ContainsParts(s, w);
      PrefixParts(s, w);
      SuffixParts(s, w);
    } else if op in {"in", "not_in"} {
      ListedTexts(value, s);
    }
  }

  /** The value is written in the list; a null in a list of texts is the empty text, and in a
      list of numbers zero. */
  ghost predicate Lists(items: seq<Json>, v: Json) {
    exists i | 0 <= i < |items| :: items[i] == v || (items[i] == Null && v in {Str(""), Whole(0)})
  }

  lemma ListedTexts(value: Json, s: string)
    requires NonEmptyList(value, AsString)
    ensures value.List? && (s in AsList(value, AsString).value <==> Lists(value.items, Str(s)))
  {
    var list := AsList(value, AsString).value;
    assert forall i | 0 <= i < |list| :: AsString(value.items[i]) == Some(list[i]);
    assert forall i | 0 <= i < |list| ::
        list[i] == s <==> value.items[i] == Str(s) || (value.items[i] == Null && s == "");
  }

  lemma ListedNumbers(value: Json, n: int)
    requires NonEmptyList(value, AsInt)
    ensures value.List? && (n in AsList(value, AsInt).value <==> Lists(value.items, Whole(n)))
  {
    var list := AsList(value, AsInt).value;
    assert forall i | 0 <= i < |list| :: AsInt(value.items[i]) == Some(list[i]);
    assert forall i | 0 <= i < |list| ::
        list[i] == n <==> value.items[i] == Whole(n) || (value.items[i] == Null && n == 0);
  }

  /** What the operators on numbers and flags say; a null is zero, or false. */
  lemma NumberOperators(parse: Parsers, field: string, op: string, value: Json, r: Request)
    requires FieldKind(field) == Some(KindNumber) && Comparable(parse, field, op, Some(value))
    ensures var n, says := ReadNumber(r, field), Says(parse, field, op, value, r);
            match op
            case "in" => value.List? && (says <==> Lists(value.items, Whole(n)))
            case "not_in" => value.List? && (says <==> !Lists(value.items, Whole(n)))
            case _ =>
              var w := if value.Whole? then value.n else 0;
              && (value.Whole? || value.Null?) && op in {"eq", "ne", "lt", "lte", "gt", "gte"}
              && (says <==> (n < w && op in {"lt", "lte", "ne"}) || (n == w && op in {"eq", "lte", "gte"})
                            || (n > w && op in {"gt", "gte", "ne"}))
  {
    if op in {"in", "not_in"} {
      ListedNumbers(value, ReadNumber(r, field));
    }
  }

  lemma FlagOperators(parse: Parsers, field: string, op: string, value: Json, r: Request)
    requires FieldKind(field) == Some(KindBool) && Comparable(parse, field, op, Some(value))
    ensures op in {"eq", "ne"} && (value.Null? || value.Boolean?)
    ensures Says(parse, field, op, value, r)
            <==> (ReadFlag(r, field) == (value.Boolean? && value.b)) == (op == "eq")
  {
  }

  lemma ContainsParts(s: string, w: string)
    ensures ContainsText(s, w) <==> exists a, b :: s == a + w + b
  {
    if ContainsText(s, w) {
      var i :| 0 <= i <= |s| - |w| && StartsAt(s, i, w);
      assert s == s[..i] + w + s[i + |w|..];
    }
    if a, b :| s == a + w + b {
      assert s[|a|..|a| + |w|] == w;
      assert StartsAt(s, |a|, w);
    }
  }

  lemma PrefixParts(s: string, w: string)
    ensures w <= s <==> exists b :: s == w + b
  {
    if w <= s {
      assert s == w + s[|w|..];
    }
  }

  lemma SuffixParts(s: string, w: string)
    ensures EndsWith(s, w) <==> exists a :: s == a + w
  {
    if EndsWith(s, w) {
      assert s == s[..|s| - |w|] + w;
    }
    if a :| s == a + w {
      assert s[|a|..] == w;
    }
  }

  /** A field has a value exactly when it has a kind, and the value is of that kind. */
  lemma KindsAgree(r: Request, field: string)
    ensures match FieldKind(field)
            case None => ValueOf(r, field).None?
            case Some(KindBool) => ValueOf(r, field).Some? && ValueOf(r, field).value.Flag?
            case Some(KindNumber) => ValueOf(r, field).Some? && ValueOf(r, field).value.Number?
            case Some(_) => ValueOf(r, field).Some? && ValueOf(r, field).value.Text?
  {
  }

  /** not_cidr is the negation of cidr exactly on the addresses that parse; elsewhere neither holds. */
  lemma NotCidrComplements(parse: Parsers, field: string, list: Json, r: Request)
    requires Comparable(parse, field, "cidr", Some(list))
    ensures Comparable(parse, field, "not_cidr", Some(list))
    ensures var inside, outside := Says(parse, field, "cidr", list, r), Says(parse, field, "not_cidr", list, r);
            && !(inside && outside)
            && (outside == !inside <==> parse.addr(ReadText(r, field)).Some?)
  {
    var kind := FieldKind(field).value;
    assert kind == KindAddr by {
      assert "cidr" in Operators(kind);
    }
  }

  ghost predicate SameSignals(a: Request, b: Request) {
    forall field :: ValueOf(a, field) == ValueOf(b, field)
  }

  /** A condition sees nothing of a request but its fields. */
  lemma {:induction false} HoldsBySignals(parse: Parsers, t: Tree, a: Request, b: Request)
    requires WellFormed(parse, t) && SameSignals(a, b)
    ensures Holds(parse, t, a) == Holds(parse, t, b)
    decreases t
  {
    if t.all.Listed? {
      forall i | 0 <= i < |t.all.list|
        ensures Holds(parse, t.all.list[i], a) == Holds(parse, t.all.list[i], b)
      {
        HoldsBySignals(parse, t.all.list[i], a, b);
      }
    } else if t.any.Listed? {
      forall i | 0 <= i < |t.any.list|
        ensures Holds(parse, t.any.list[i], a) == Holds(parse, t.any.list[i], b)
      {
        HoldsBySignals(parse, t.any.list[i], a, b);
      }
    } else if t.negated.Only? {
      HoldsBySignals(parse, t.negated.tree, a, b);
    } else {
      assert ValueOf(a, t.field) == ValueOf(b, t.field);
    }
  }

  /** An error is reported only for a tree that is not well formed, at a node that shows why. */
  lemma {:induction false} BlameIsJust(parse: Parsers, t: Tree, path: seq<Turn>)
    requires Blames(parse, t, path)
    ensures !WellFormed(parse, t)
    decreases |path|
  {
    if path != [] {
      match path[0] {
        case All(i) => BlameIsJust(parse, t.all.list[i], path[1..]);
        case Any(i) => BlameIsJust(parse, t.any.list[i], path[1..]);
        case Not => BlameIsJust(parse, t.negated.tree, path[1..]);
      }
    }
  }
}
