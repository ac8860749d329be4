/** JSON documents, JSON Pointer (RFC 6901) and the `add` operation of JSON Patch (RFC 6902). */
module JsonPatch {
  import opened Wrappers

  datatype Json =
    | Null
    | Bool(truth: bool)
    | Number(number: int)
    | String(text: string)
    | Array(items: seq<Json>)
    | Object(members: map<string, Json>)

  /** An operation; `add` is the only one the injector emits. */
  datatype Operation = Operation(path: string, value: Json)

  // ---------------------------------------------------------------- pointers

  ghost predicate IsLastSlash(path: string, i: nat) {
    i < |path| && path[i] == '/' && '/' !in path[i + 1..]
  }

  /** The position of the last '/'. */
  ghost function LastSlash(path: string): (r: Option<nat>)
    ensures r.Some? ==> IsLastSlash(path, r.value)
  {
    if exists i: nat :: IsLastSlash(path, i) then
      var i: nat :| IsLastSlash(path, i);
      Some(i)
    else None
  }

  lemma NoLaterSlash(path: string, i: nat)
    requires IsLastSlash(path, i)
    ensures forall j | i < j < |path| :: path[j] != '/'
  {
    assert forall j | i < j < |path| :: path[j] == path[i + 1..][j - i - 1];
  }

  lemma LastSlashIs(path: string, i: nat)
    requires IsLastSlash(path, i)
    ensures LastSlash(path) == Some(i)
  {
    NoLaterSlash(path, i);
    NoLaterSlash(path, LastSlash(path).value);
  }

  /** Section 4 of RFC 6901: "~1" stands for '/' and "~0" for '~'. */
  function Unescape(token: string): string {
    if token == "" then ""
    else if |token| >= 2 && token[0] == '~' && token[1] == '1' then "/" + Unescape(token[2..])
    else if |token| >= 2 && token[0] == '~' && token[1] == '0' then "~" + Unescape(token[2..])
    else [token[0]] + Unescape(token[1..])
  }

  /** Section 3 of RFC 6901: a pointer is empty or a sequence of tokens each led by '/'. */
  ghost function Tokens(path: string): Option<seq<string>> {
    if path == "" then Some([])
    else
      var i := LastSlash(path);
      if i.None? then None
      else
        var front := Tokens(path[..i.value]);
        if front.None? then None else Some(front.value + [Unescape(path[i.value + 1..])])
  }

  predicate Plain(token: string) {
    '/' !in token && '~' !in token
  }

  lemma {:induction false} UnescapePlain(token: string)
    requires Plain(token)
    ensures Unescape(token) == token
  {
    if token != "" {
      UnescapePlain(token[1..]);
      assert token[0] in token;
      assert token == [token[0]] + token[1..];
    }
  }

  /** Writing a token into a pointer. */
  function Escape(token: string): string {
    if token == "" then "" else EscapeChar(token[0]) + Escape(token[1..])
  }

  function EscapeChar(c: char): string {
    if c == '~' then "~0" else if c == '/' then "~1" else [c]
  }

  lemma UnescapeChar(c: char, rest: string)
    ensures Unescape(EscapeChar(c) + rest) == [c] + Unescape(rest)
  {
    var token := EscapeChar(c) + rest;
    if c == '~' || c == '/' {
      assert token[2..] == rest;
    } else {
      assert token[1..] == rest && token[0] == c;
    }
  }

  lemma {:induction false} EscapeReadsBack(token: string)
    ensures Unescape(Escape(token)) == token && '/' !in Escape(token)
  {
    if token != "" {
      EscapeReadsBack(token[1..]);
      UnescapeChar(token[0], Escape(token[1..]));
      assert token == [token[0]] + token[1..];
      assert '/' !in EscapeChar(token[0]);
    }
  }

  /** Every token can be addressed: appending it escaped to a pointer appends the token. */
  lemma TokensEscaped(path: string, token: string)
    requires Tokens(path).Some?
    ensures Tokens(path + "/" + Escape(token)) == Some(Tokens(path).value + [token])
  {
    var whole := path + "/" + Escape(token);
    EscapeReadsBack(token);
    assert whole[..|path|] == path && whole[|path| + 1..] == Escape(token);
    LastSlashIs(whole, |path|);
  }

  /** Appending "/token" to a pointer appends the token. */
  lemma TokensAppend(path: string, token: string)
    requires Tokens(path).Some? && Plain(token)
    ensures Tokens(path + "/" + token) == Some(Tokens(path).value + [token])
  {
    var whole := path + "/" + token;
    assert whole[..|path|] == path && whole[|path| + 1..] == token;
    LastSlashIs(whole, |path|);
    UnescapePlain(token);
  }

  lemma TokensAt(path: string, i: nat, front: string, rest: string)
    requires IsLastSlash(path, i) && path[..i] == front && path[i + 1..] == rest && Tokens(front).Some?
    ensures Tokens(path) == Some(Tokens(front).value + [Unescape(rest)])
  {
    LastSlashIs(path, i);
  }

  lemma LastSlashOfConcat(a: string, b: string, i: nat)
    requires IsLastSlash(b, i)
    ensures IsLastSlash(a + b, |a| + i) && (a + b)[..|a| + i] == a + b[..i] && (a + b)[|a| + i + 1..] == b[i + 1..]
  {
    assert (a + b)[|a| + i] == b[i];
  }

  /** Concatenating pointers concatenates their tokens. */
  lemma {:induction false} TokensConcat(a: string, b: string)
    requires Tokens(a).Some? && Tokens(b).Some?
    ensures Tokens(a + b) == Some(Tokens(a).value + Tokens(b).value)
  {
    if b == "" {
      assert a + b == a;
      assert Tokens(a).value + [] == Tokens(a).value;
    } else {
      var i := LastSlash(b).value;
      TokensConcat(a, b[..i]);
      LastSlashOfConcat(a, b, i);
      TokensAt(b, i, b[..i], b[i + 1..]);
      TokensAt(a + b, |a| + i, a + b[..i], b[i + 1..]);
      Regroup(Tokens(a).value, Tokens(b[..i]).value, Unescape(b[i + 1..]));
    }
  }

  lemma Regroup<T>(a: seq<T>, b: seq<T>, x: T)
    ensures a + b + [x] == a + (b + [x])
  {
  }

  lemma Regrouped<T>(a: seq<T>, b: seq<T>, c: seq<T>)
    ensures a + b + c == a + (b + c)
  {
  }

  const DIGITS := "0123456789"

  /** What %d prints. */
  function Decimal(n: nat): (s: string)
    ensures s != "" && (forall c | c in s :: c in DIGITS)
    ensures s[0] == '0' ==> n == 0 && s == "0"
  {
    if n < 10 then [DIGITS[n]] else Decimal(n / 10) + [DIGITS[n % 10]]
  }

  function Digit(c: char): (d: nat)
    requires c in DIGITS
  {
    (c as int) - ('0' as int)
  }

  function Numeral(s: string): nat
    requires forall c | c in s :: c in DIGITS
  {
    if s == "" then 0 else 10 * Numeral(s[..|s| - 1]) + Digit(s[|s| - 1])
  }

  /** Section 4 of RFC 6901: an array index has digits only and no leading zero. */
  function ArrayIndex(token: string): Option<nat> {
    if token != "" && (forall c | c in token :: c in DIGITS) && (token[0] == '0' ==> |token| == 1)
    then Some(Numeral(token))
    else None
  }

  lemma {:induction false} NumeralOfDecimal(n: nat)
    ensures Numeral(Decimal(n)) == n
  {
    if n >= 10 {
      NumeralOfDecimal(n / 10);
      assert Decimal(n)[..|Decimal(n)| - 1] == Decimal(n / 10);
    }
  }

  lemma DecimalIsIndex(n: nat)
    ensures ArrayIndex(Decimal(n)) == Some(n) && Plain(Decimal(n)) && Decimal(n) != "-"
  {
    NumeralOfDecimal(n);
    assert '/' !in DIGITS && '~' !in DIGITS && '-' !in DIGITS;
    assert Decimal(n)[0] in DIGITS;
  }

  lemma {:induction false} DecimalOfNumeral(s: string)
    requires s != "" && (forall c | c in s :: c in DIGITS) && (s[0] == '0' ==> |s| == 1)
    ensures Decimal(Numeral(s)) == s && (s[0] != '0' ==> Numeral(s) >= 1)
  {
    var front, last := s[..|s| - 1], s[|s| - 1];
    assert last in s && s == front + [last];
    assert DIGITS[Digit(last)] == last;
    if front == "" {
      assert Numeral(s) == Digit(last);
    } else {
      assert front[0] == s[0] && s[0] in s;
      DecimalOfNumeral(front);
      assert Numeral(s) / 10 == Numeral(front) && Numeral(s) % 10 == Digit(last);
    }
  }

  /** The array index a token stands for is the number whose decimal digits it is. */
  lemma IndexExactly(token: string, n: nat)
    ensures ArrayIndex(token) == Some(n) <==> token == Decimal(n)
  {
    DecimalIsIndex(n);
    if ArrayIndex(token) == Some(n) {
      DecimalOfNumeral(token);
    }
  }

  // ---------------------------------------------------------------- the add operation

  /** Section 4.1 of RFC 6902: insert into an array, "-" meaning its end, or set an object member; the
      parent of the target has to exist. None is an error.
   */
  function Add(doc: Json, tokens: seq<string>, value: Json): Option<Json> {
    if tokens == [] then Some(value)
    else
      match doc
      case Object(members) =>
        if |tokens| == 1 then Some(Object(members[tokens[0] := value]))
        else if tokens[0] !in members then None
        else
          var child := Add(members[tokens[0]], tokens[1..], value);
          if child.None? then None else Some(Object(members[tokens[0] := child.value]))
      case Array(items) =>
        var index := ArrayIndex(tokens[0]);
        if |tokens| == 1 then
          if tokens[0] == "-" then Some(Array(items + [value]))
          else if index.Some? && index.value <= |items| then Some(Array(items[..index.value] + [value] + items[index.value..]))
          else None
        else if index.None? || index.value >= |items| then None
        else
          var child := Add(items[index.value], tokens[1..], value);
          if child.None? then None else Some(Array(items[index.value := child.value]))
      case _ => None
  }

  /** Missing, null and [] all read as no elements. */
  predicate Empty(doc: Json) {
    doc.Null? || doc == Array([])
  }

  /** An add at `tokens` would discard what stands there. */
  predicate Overwrites(doc: Json, tokens: seq<string>) {
    if tokens == [] then true
    else
      match doc
      case Object(members) =>
        tokens[0] in members &&
        if |tokens| == 1 then !Empty(members[tokens[0]]) else Overwrites(members[tokens[0]], tokens[1..])
      case Array(items) =>
        var index := ArrayIndex(tokens[0]);
        |tokens| > 1 && index.Some? && index.value < |items| && Overwrites(items[index.value], tokens[1..])
      case _ => false
  }

  /** Section 4 of RFC 6901: the value a pointer refers to. */
  function Resolve(doc: Json, tokens: seq<string>): Option<Json> {
    if tokens == [] then Some(doc)
    else
      match doc
      case Object(members) => if tokens[0] in members then Resolve(members[tokens[0]], tokens[1..]) else None
      case Array(items) =>
        var index := ArrayIndex(tokens[0]);
        if index.Some? && index.value < |items| then Resolve(items[index.value], tokens[1..]) else None
      case _ => None
  }

  /** Adding below a pointer adds to the value the pointer refers to. */
  lemma {:induction false} AddAtParent(doc: Json, parent: seq<string>, last: string, value: Json)
    ensures Add(doc, parent + [last], value).Some? <==>
            Resolve(doc, parent).Some? && Add(Resolve(doc, parent).value, [last], value).Some?
    ensures Add(doc, parent + [last], value).Some? ==>
              Resolve(Add(doc, parent + [last], value).value, parent) == Add(Resolve(doc, parent).value, [last], value)
  {
    if parent == [] {
      assert parent + [last] == [last];
    } else {
      assert (parent + [last])[1..] == parent[1..] + [last];
      match doc
      case Object(members) =>
        if parent[0] in members {
          AddAtParent(members[parent[0]], parent[1..], last, value);
        }
      case Array(items) =>
        var index := ArrayIndex(parent[0]);
        if index.Some? && index.value < |items| {
          AddAtParent(items[index.value], parent[1..], last, value);
        }
      case _ =>
    }
  }

  lemma AddAtIndex(items: seq<Json>, token: string, n: nat, value: Json)
    requires token != "-" && ArrayIndex(token) == Some(n)
    ensures Add(Array(items), [token], value) ==
            if n <= |items| then Some(Array(items[..n] + [value] + items[n..])) else None
  {
  }

  /** Adding to an array moves the elements from the index on up by one and loses none; "-" is the end. */
  lemma AddToArray(items: seq<Json>, n: nat, value: Json)
    ensures Add(Array(items), [Decimal(n)], value).Some? <==> n <= |items|
    ensures n <= |items| ==>
              var after := Add(Array(items), [Decimal(n)], value).value;
              && after.Array? && |after.items| == |items| + 1 && after.items[n] == value
              && (forall i | 0 <= i < n :: after.items[i] == items[i])
              && (forall i | n <= i < |items| :: after.items[i + 1] == items[i])
    ensures Add(Array(items), ["-"], value) == Add(Array(items), [Decimal(|items|)], value)
  {
    DecimalIsIndex(n);
    DecimalIsIndex(|items|);
    AddAtIndex(items, Decimal(n), n, value);
    AddAtIndex(items, Decimal(|items|), |items|, value);
    assert items[..|items|] + [value] + items[|items|..] == items + [value];
  }

  /** What an add discards: the whole document, or the member of that name when it has content. */
  lemma {:induction false} OverwritesExactly(doc: Json, parent: seq<string>, last: string)
    ensures Overwrites(doc, []) && (Overwrites(doc, parent + [last]) <==>
              match Resolve(doc, parent)
              case Some(Object(members)) => last in members && members[last] != Null && members[last] != Array([])
              case _ => false)
  {
    if parent == [] {
      assert parent + [last] == [last];
    } else {
      assert (parent + [last])[1..] == parent[1..] + [last];
      match doc
      case Object(members) =>
        if parent[0] in members {
          OverwritesExactly(members[parent[0]], parent[1..], last);
        }
      case Array(items) =>
        var index := ArrayIndex(parent[0]);
        if index.Some? && index.value < |items| {
          OverwritesExactly(items[index.value], parent[1..], last);
        }
      case _ =>
    }
  }

  ghost function ApplyOperation(doc: Json, op: Operation): Option<Json> {
    var tokens := Tokens(op.path);
    if tokens.None? then None else Add(doc, tokens.value, op.value)
  }

  /** Section 3 of RFC 6902: the operations one after the other, each on what the ones before it left. */
  ghost function ApplyPatch(doc: Json, ops: seq<Operation>): Option<Json> {
    if ops == [] then Some(doc)
    else
      var before := ApplyPatch(doc, ops[..|ops| - 1]);
      if before.None? then None else ApplyOperation(before.value, ops[|ops| - 1])
  }

  /** The same, also failing when an operation would discard something. */
  ghost function ApplyPreserving(doc: Json, ops: seq<Operation>): Option<Json> {
    if ops == [] then Some(doc)
    else
      var before := ApplyPreserving(doc, ops[..|ops| - 1]);
      if before.None? then None else ApplyOnePreserving(before.value, ops[|ops| - 1])
  }

  ghost function ApplyOnePreserving(doc: Json, op: Operation): Option<Json> {
    var tokens := Tokens(op.path);
    if tokens.None? || Overwrites(doc, tokens.value) then None else Add(doc, tokens.value, op.value)
  }

  lemma ApplyPreservingLast(doc: Json, ops: seq<Operation>, op: Operation)
    requires ApplyPreserving(doc, ops).Some?
    ensures ApplyPreserving(doc, ops + [op]) == ApplyOnePreserving(ApplyPreserving(doc, ops).value, op)
  {
    assert (ops + [op])[..|ops|] == ops;
  }

  lemma {:induction false} ApplyPreservingConcat(doc: Json, a: seq<Operation>, b: seq<Operation>)
    requires ApplyPreserving(doc, a).Some?
    ensures ApplyPreserving(doc, a + b) == ApplyPreserving(ApplyPreserving(doc, a).value, b)
  {
    if b == [] {
      assert a + b == a;
    } else {
      var front, last := b[..|b| - 1], b[|b| - 1];
      ApplyPreservingConcat(doc, a, front);
      assert (a + b)[..|a + b| - 1] == a + front && (a + b)[|a + b| - 1] == last;
    }
  }

  /** Before its k-th operation the patch has applied, and that operation discards nothing. */
  ghost predicate PreservesAt(doc: Json, ops: seq<Operation>, k: nat)
    requires k < |ops|
  {
    var before, tokens := ApplyPatch(doc, ops[..k]), Tokens(ops[k].path);
    before.Some? && tokens.Some? && !Overwrites(before.value, tokens.value)
  }

  /** What the preserving reading of a patch adds to the plain one. */
  lemma {:induction false} PreservingMeans(doc: Json, ops: seq<Operation>)
    requires ApplyPreserving(doc, ops).Some?
    ensures ApplyPatch(doc, ops) == ApplyPreserving(doc, ops)
    ensures forall k: nat | k < |ops| :: PreservesAt(doc, ops, k)
  {
    if ops != [] {
      var front := ops[..|ops| - 1];
      PreservingMeans(doc, front);
      forall k: nat | k < |ops| ensures PreservesAt(doc, ops, k) {
        if k < |front| {
          assert PreservesAt(doc, front, k);
          assert front[..k] == ops[..k];
        } else {
          assert ops[..k] == front;
        }
      }
    }
  }

  /** An operation that fails makes the whole patch fail. */
  lemma {:induction false} FailureSticks(doc: Json, a: seq<Operation>, op: Operation, b: seq<Operation>)
    requires ApplyPatch(doc, a).Some? ==> ApplyOperation(ApplyPatch(doc, a).value, op).None?
    ensures ApplyPatch(doc, a + [op] + b).None?
  {
    var whole := a + [op] + b;
    if b == [] {
      assert whole[..|whole| - 1] == a && whole[|whole| - 1] == op;
    } else {
      FailureSticks(doc, a, op, b[..|b| - 1]);
      assert whole[..|whole| - 1] == a + [op] + b[..|b| - 1];
    }
  }

  /** The pointer of one token. */
  lemma SingleToken(path: string, token: string)
    requires path == "/" + token && Plain(token)
    ensures Tokens(path) == Some([token])
  {
    assert path == "" + "/" + token;
    TokensAppend("", token);
    assert [] + [token] == [token];
  }

  lemma SingleOperation(doc: Json, op: Operation)
    ensures ApplyPreserving(doc, [op]) == ApplyOnePreserving(doc, op)
  {
    ApplyPreservingLast(doc, [], op);
    assert [] + [op] == [op];
  }

  // ---------------------------------------------------------------- patching a part of a document

  /** The value a token refers to. */
  function Child(doc: Json, token: string): Option<Json> {
    match doc
    case Object(members) => if token in members then Some(members[token]) else None
    case Array(items) =>
      var index := ArrayIndex(token);
      if index.Some? && index.value < |items| then Some(items[index.value]) else None
    case _ => None
  }

  function WithChild(doc: Json, token: string, child: Json): Json
    requires Child(doc, token).Some?
  {
    match doc
    case Object(members) => Object(members[token := child])
    case Array(items) => Array(items[ArrayIndex(token).value := child])
  }

  /** The same operations, addressed from further up. */
  function Prefixed(path: string, ops: seq<Operation>): seq<Operation> {
    seq(|ops|, i requires 0 <= i < |ops| => Operation(path + ops[i].path, ops[i].value))
  }

  lemma AddInChild(doc: Json, token: string, rest: seq<string>, value: Json)
    requires Child(doc, token).Some? && rest != []
    ensures
      var child := Child(doc, token).value;
      && Overwrites(doc, [token] + rest) == Overwrites(child, rest)
      && Add(doc, [token] + rest, value) == match Add(child, rest, value) {
           case None => None
           case Some(changed) => Some(WithChild(doc, token, changed))
         }
  {
    assert ([token] + rest)[1..] == rest;
  }

  lemma WithSameChild(doc: Json, token: string)
    requires Child(doc, token).Some?
    ensures WithChild(doc, token, Child(doc, token).value) == doc
  {
    if doc.Object? {
      assert doc.members[token := doc.members[token]] == doc.members;
    } else {
      var i := ArrayIndex(token).value;
      assert doc.items[i := doc.items[i]] == doc.items;
    }
  }

  lemma WithChildTwice(doc: Json, token: string, a: Json, b: Json)
    requires Child(doc, token).Some?
    ensures Child(WithChild(doc, token, a), token) == Some(a)
    ensures WithChild(WithChild(doc, token, a), token, b) == WithChild(doc, token, b)
  {
    if doc.Object? {
      assert doc.members[token := a][token := b] == doc.members[token := b];
    } else {
      var i := ArrayIndex(token).value;
      assert doc.items[i := a][i := b] == doc.items[i := b];
    }
  }

  /** A patch of a part, addressed from the whole, patches that part and nothing else. */
  lemma {:induction false} LiftPatch(doc: Json, path: string, token: string, ops: seq<Operation>)
    requires Tokens(path) == Some([token]) && Child(doc, token).Some?
    requires ApplyPreserving(Child(doc, token).value, ops).Some?
    ensures ApplyPreserving(doc, Prefixed(path, ops))
            == Some(WithChild(doc, token, ApplyPreserving(Child(doc, token).value, ops).value))
  {
    var child := Child(doc, token).value;
    if ops == [] {
      WithSameChild(doc, token);
    } else {
      var front, last := ops[..|ops| - 1], ops[|ops| - 1];
      LiftPatch(doc, path, token, front);
      var middle := ApplyPreserving(child, front).value;
      var lifted := Operation(path + last.path, last.value);
      assert Prefixed(path, ops)[..|ops| - 1] == Prefixed(path, front);
      TokensConcat(path, last.path);
      var before, changed := WithChild(doc, token, middle), ApplyPreserving(child, ops).value;
      WithChildTwice(doc, token, middle, changed);
      AddInChild(before, token, Tokens(last.path).value, last.value);
      assert ApplyOnePreserving(before, lifted) == Some(WithChild(before, token, changed));
    }
  }

  // ---------------------------------------------------------------- failing patches

  /** The n-th operation fails, on what the ones before it left. */
  ghost predicate FailsAt(doc: Json, ops: seq<Operation>, n: nat) {
    && n < |ops| && ApplyPreserving(doc, ops[..n]).Some?
    && Tokens(ops[n].path).Some? && Tokens(ops[n].path).value != []
    && ApplyOperation(ApplyPreserving(doc, ops[..n]).value, ops[n]).None?
  }

  lemma FailsAtMeans(doc: Json, ops: seq<Operation>, n: nat)
    requires FailsAt(doc, ops, n)
    ensures ApplyPatch(doc, ops).None?
  {
    PreservingMeans(doc, ops[..n]);
    FailureSticks(doc, ops[..n], ops[n], ops[n + 1..]);
    assert ops[..n] + [ops[n]] + ops[n + 1..] == ops;
  }

  lemma FailsInPrefix(doc: Json, a: seq<Operation>, b: seq<Operation>, n: nat)
    requires FailsAt(doc, a, n)
    ensures FailsAt(doc, a + b, n)
  {
    assert (a + b)[..n] == a[..n];
  }

  lemma FailsAfter(doc: Json, a: seq<Operation>, b: seq<Operation>, n: nat)
    requires ApplyPreserving(doc, a).Some? && FailsAt(ApplyPreserving(doc, a).value, b, n)
    ensures FailsAt(doc, a + b, |a| + n)
  {
    assert (a + b)[..|a| + n] == a + b[..n];
    ApplyPreservingConcat(doc, a, b[..n]);
  }

  /** A patch of a part failing there fails addressed from the whole. */
  lemma LiftFailure(doc: Json, path: string, token: string, ops: seq<Operation>, n: nat)
    requires Tokens(path) == Some([token]) && Child(doc, token).Some? && FailsAt(Child(doc, token).value, ops, n)
    ensures FailsAt(doc, Prefixed(path, ops), n)
  {
    LiftPatch(doc, path, token, ops[..n]);
    assert Prefixed(path, ops)[..n] == Prefixed(path, ops[..n]);
    var before := ApplyPreserving(Child(doc, token).value, ops[..n]).value;
    var rest := Tokens(ops[n].path).value;
    TokensConcat(path, ops[n].path);
    WithChildTwice(doc, token, before, before);
    AddInChild(WithChild(doc, token, before), token, rest, ops[n].value);
  }
}
