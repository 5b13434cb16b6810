/** API requests as cache keys: argument access, equality and hash
    (ton-http-api/request.hpp). */
module RequestKey {
  import opened Results
  import opened Lexicographic
  import opened Sets

  datatype Request = Request(
    httpMethod: string, apiMethod: string, args: map<string, seq<string>>, isDebug: bool)
  {
    /** The first value of an argument, or "" without one. */
    function GetArg(name: string): string {
      if name in args && args[name] != [] then args[name][0] else ""
    }

    function SetArgVector(name: string, values: seq<string>): Request {
      this.(args := args[name := values])
    }

    function SetArg(name: string, value: string): Request { SetArgVector(name, [value]) }

    predicate CommaFree() { forall name, i | name in args && 0 <= i < |args[name]| :: ',' !in args[name][i] }

    /** No reordering of an argument's values reads the same, joined by commas,
        and begins with another value. */
    ghost predicate ReadsOneWay() { forall name | name in args :: BeginsOneWay(args[name]) }

    /** All values of an argument are the same one. */
    predicate Uniform() { forall name, i | name in args && 0 <= i < |args[name]| :: args[name][i] == args[name][0] }
  }

  // ----- Sorting, as `std::ranges::sort` does it -----

  predicate NotAfter(a: string, b: string) { !Less(b, a) }

  ghost predicate IsSorted(s: seq<string>) {
    forall i, j | 0 <= i < j < |s| :: NotAfter(s[i], s[j])
  }

  function Insert(x: string, s: seq<string>): seq<string> {
    if s == [] || NotAfter(x, s[0]) then [x] + s else [s[0]] + Insert(x, s[1..])
  }

  function Sort(s: seq<string>): seq<string> {
    if s == [] then [] else Insert(s[0], Sort(s[1..]))
  }

  lemma {:induction false} NotAfterIsTransitive(a: string, b: string, c: string)
    requires NotAfter(a, b) && NotAfter(b, c)
    ensures NotAfter(a, c)
  {
    Total(a, b);
    Total(b, c);
    if Less(c, a) {
      if a != b { Transitive(c, a, b); }
      if b != c { Irreflexive(b); Transitive(b, c, b); }
    }
  }

  lemma {:induction false} SmallestInFrontSorts(x: string, s: seq<string>)
    requires IsSorted(s) && forall y | y in s :: NotAfter(x, y)
    ensures IsSorted([x] + s)
  {
  }

  lemma {:induction false} FirstIsSmallest(s: seq<string>)
    requires IsSorted(s) && s != []
    ensures forall y | y in s :: NotAfter(s[0], y)
  {
    Irreflexive(s[0]);
  }

  lemma {:induction false} InsertSorts(x: string, s: seq<string>)
    requires IsSorted(s)
    ensures IsSorted(Insert(x, s)) && multiset(Insert(x, s)) == multiset{x} + multiset(s)
  {
    if s == [] {
    } else if NotAfter(x, s[0]) {
      FirstIsSmallest(s);
      forall y | y in s
        ensures NotAfter(x, y)
      {
        NotAfterIsTransitive(x, s[0], y);
      }
      SmallestInFrontSorts(x, s);
    } else {
      var t := Insert(x, s[1..]);
      InsertSorts(x, s[1..]);
      assert s == [s[0]] + s[1..];
      FirstIsSmallest(s);
      LessIsNotAfter(s[0], x);
      forall y | y in t
        ensures NotAfter(s[0], y)
      {
        assert y in multiset(t);
        assert y == x || y in s[1..];
      }
      SmallestInFrontSorts(s[0], t);
    }
  }

  lemma {:induction false} LessIsNotAfter(a: string, b: string)
    requires Less(a, b)
    ensures NotAfter(a, b)
  {
    Irreflexive(a);
    if Less(b, a) { Transitive(a, b, a); }
  }

  lemma {:induction false} SortSorts(s: seq<string>)
    ensures IsSorted(Sort(s)) && multiset(Sort(s)) == multiset(s)
  {
    if s != [] {
      SortSorts(s[1..]);
      InsertSorts(s[0], Sort(s[1..]));
      assert s == [s[0]] + s[1..];
    }
  }

  /** A multiset has one sorted list. */
  lemma {:induction false} SortedIsUnique(s: seq<string>, t: seq<string>)
    requires IsSorted(s) && IsSorted(t) && multiset(s) == multiset(t)
    ensures s == t
  {
    assert |s| == |multiset(s)| == |multiset(t)| == |t|;
    if s != [] {
      SmallestIsFirst(s, t);
      SmallestIsFirst(t, s);
      Total(s[0], t[0]);
      RestOfMultiset(s);
      RestOfMultiset(t);
      SortedIsUnique(s[1..], t[1..]);
      assert s == [s[0]] + s[1..];
    }
  }

  lemma {:induction false} RestOfMultiset(s: seq<string>)
    requires s != []
    ensures multiset(s[1..]) == multiset(s) - multiset{s[0]}
  {
    assert s == [s[0]] + s[1..];
  }

  lemma {:induction false} SmallestIsFirst(s: seq<string>, t: seq<string>)
    requires IsSorted(s) && s != [] && t != [] && multiset(s) == multiset(t)
    ensures NotAfter(s[0], t[0])
  {
    assert t[0] in multiset(t);
    var i :| 0 <= i < |s| && s[i] == t[0];
    Irreflexive(s[0]);
  }

  lemma {:induction false} SortsAgreeIffSameValues(v: seq<string>, w: seq<string>)
    ensures Sort(v) == Sort(w) <==> multiset(v) == multiset(w)
  {
    SortSorts(v);
    SortSorts(w);
    if multiset(v) == multiset(w) {
      SortedIsUnique(Sort(v), Sort(w));
    }
  }

  // ----- Equality -----

  /** `operator==` as the code decides it: the number of arguments, and one
      pass over the left side's arguments comparing sorted copies. */
  predicate Equals(a: Request, b: Request) {
    && a.httpMethod == b.httpMethod && a.apiMethod == b.apiMethod && |a.args| == |b.args|
    && forall name | name in a.args :: name in b.args && Sort(a.args[name]) == Sort(b.args[name])
  }

  /** What it is meant to decide: same methods, same argument names, and the
      same values for each, in any order. */
  ghost predicate SameRequest(a: Request, b: Request) {
    && a.httpMethod == b.httpMethod && a.apiMethod == b.apiMethod && a.args.Keys == b.args.Keys
    && forall name | name in a.args :: multiset(a.args[name]) == multiset(b.args[name])
  }

  /** The one-sided comparison decides full equality. */
  lemma {:induction false} EqualsDecidesSameRequest(a: Request, b: Request)
    ensures Equals(a, b) <==> SameRequest(a, b)
  {
    forall name | name in a.args && name in b.args
      ensures Sort(a.args[name]) == Sort(b.args[name]) <==> multiset(a.args[name]) == multiset(b.args[name])
    {
      SortsAgreeIffSameValues(a.args[name], b.args[name]);
    }
    assert |a.args| == |a.args.Keys| && |b.args| == |b.args.Keys|;
    if Equals(a, b) {
      SubsetSize(a.args.Keys, b.args.Keys);
    }
  }

  /** Equality is an equivalence relation. */
  lemma {:induction false} EqualsIsEquivalence(a: Request, b: Request, c: Request)
    ensures Equals(a, a)
    ensures Equals(a, b) ==> Equals(b, a)
    ensures Equals(a, b) && Equals(b, c) ==> Equals(a, c)
  {
    EqualsDecidesSameRequest(a, b);
    EqualsDecidesSameRequest(b, a);
    EqualsDecidesSameRequest(b, c);
    EqualsDecidesSameRequest(a, c);
  }

  /** The loop of `operator==`. */
  method CompareRequests(a: Request, b: Request) returns (same: bool)
    ensures same <==> SameRequest(a, b)
  {
    EqualsDecidesSameRequest(a, b);
    if !(a.httpMethod == b.httpMethod && a.apiMethod == b.apiMethod) {
      return false;
    }
    if |a.args| != |b.args| {
      return false;
    }
    var names := a.args.Keys;
    while names != {}
      invariant names <= a.args.Keys
      invariant forall name | name in a.args && name !in names ::
                  name in b.args && Sort(a.args[name]) == Sort(b.args[name])
      decreases |names|
    {
      var k :| k in names;
      if k !in b.args {
        return false;
      }
      var v1, v2 := Sort(a.args[k]), Sort(b.args[k]);
      if v1 != v2 {
        return false;
      }
      names := names - {k};
    }
    return true;
  }

  // ----- Hash -----

  function Joined(values: seq<string>): string {
    if values == [] then ""
    else if |values| == 1 then values[0]
    else Joined(values[..|values| - 1]) + "," + values[|values| - 1]
  }

  /** The text that is hashed, for the argument names in the map's order. */
  function HashText(r: Request, names: seq<string>): string
    requires forall name | name in names :: name in r.args
  {
    if names == [] then r.httpMethod + "/" + r.apiMethod
    else
      var last := names[|names| - 1];
      HashText(r, names[..|names| - 1]) + ("/" + last + ":" + Joined(r.args[last]))
  }

  method HashStream(r: Request, names: seq<string>) returns (text: string)
    requires forall name | name in names :: name in r.args
    ensures text == HashText(r, names)
  {
    text := r.httpMethod + "/" + r.apiMethod;
    for i := 0 to |names|
      invariant text == HashText(r, names[..i])
    {
      assert names[..i + 1][..i] == names[..i];
      var part := "";
      var values := r.args[names[i]];
      var isFirst := true;
      for j := 0 to |values|
        invariant part == Joined(values[..j]) && isFirst == (j == 0)
      {
        assert values[..j + 1][..j] == values[..j];
        if isFirst {
          isFirst := false;
          part := values[j];
        } else {
          part := part + "," + values[j];
        }
      }
      assert values[..|values|] == values;
      text := text + ("/" + names[i] + ":" + part);
    }
    assert names[..|names|] == names;
  }

  /** The text has all of the request in it: it begins with the two methods,
      and every argument's name and values stand in it. */
  lemma {:induction false} TextShowsTheRequest(r: Request, names: seq<string>, k: nat)
    requires forall name | name in names :: name in r.args
    requires k < |names|
    ensures r.httpMethod + "/" + r.apiMethod <= HashText(r, names)
    ensures exists i, j :: 0 <= i <= j <= |HashText(r, names)|
                           && HashText(r, names)[i..j] == "/" + names[k] + ":" + Joined(r.args[names[k]])
  {
    var n := |names| - 1;
    var front, text := HashText(r, names[..n]), HashText(r, names);
    var part := "/" + names[n] + ":" + Joined(r.args[names[n]]);
    assert text == front + part;
    if n > 0 {
      TextShowsTheRequest(r, names[..n], if k < n then k else 0);
    }
    if k == n {
      assert text[|front|..|text|] == part;
    } else {
      var i, j :| 0 <= i <= j <= |front| && front[i..j] == "/" + names[k] + ":" + Joined(r.args[names[k]]);
      assert text[i..j] == front[i..j];
    }
  }

  /** The argument names in the order `std::map` keeps them. */
  ghost predicate IsKeyOrder(names: seq<string>, r: Request) {
    && (forall name :: name in names <==> name in r.args)
    && forall i, j | 0 <= i < j < |names| :: Less(names[i], names[j])
  }

  lemma {:induction false} KeyOrdersAgree(names: seq<string>, others: seq<string>, a: Request, b: Request)
    requires IsKeyOrder(names, a) && IsKeyOrder(others, b) && a.args.Keys == b.args.Keys
    ensures names == others
  {
    KeyOrderIsSortedSet(names);
    KeyOrderIsSortedSet(others);
    forall x: string
      ensures multiset(names)[x] == multiset(others)[x]
    {
      assert x in names <==> x in others;
      assert x in names <==> x in multiset(names);
      assert x in others <==> x in multiset(others);
    }
    SortedIsUnique(names, others);
  }

  lemma {:induction false} KeyOrderIsSortedSet(names: seq<string>)
    requires forall i, j | 0 <= i < j < |names| :: Less(names[i], names[j])
    ensures IsSorted(names) && forall x: string :: multiset(names)[x] <= 1
  {
    if names != [] {
      var n := |names| - 1;
      KeyOrderIsSortedSet(names[..n]);
      assert names == names[..n] + [names[n]];
      forall i | 0 <= i < n
        ensures NotAfter(names[i], names[n]) && names[i] != names[n]
      {
        Irreflexive(names[i]);
        if Less(names[n], names[i]) { Transitive(names[i], names[n], names[i]); }
      }
      assert names[n] !in names[..n];
      assert names[n] !in multiset(names[..n]);
      assert forall i | 0 <= i < n :: names[i] == names[..n][i];
    }
  }

  /** The hash respects equality when each argument's values come in the same order. */
  lemma {:induction false} HashRespectsEqualityInOrder(a: Request, b: Request, names: seq<string>, others: seq<string>)
    requires SameRequest(a, b) && forall name | name in a.args :: a.args[name] == b.args[name]
    requires IsKeyOrder(names, a) && IsKeyOrder(others, b)
    ensures HashText(a, names) == HashText(b, others)
  {
    KeyOrdersAgree(names, others, a, b);
    assert a.args == b.args;
    SameTextForSameArgs(a, b, names);
  }

  lemma {:induction false} SameTextForSameArgs(a: Request, b: Request, names: seq<string>)
    requires a.httpMethod == b.httpMethod && a.apiMethod == b.apiMethod && a.args == b.args
    requires forall name | name in names :: name in a.args
    ensures HashText(a, names) == HashText(b, names)
  {
    if names != [] {
      SameTextForSameArgs(a, b, names[..|names| - 1]);
    }
  }

  function TotalLength(values: seq<string>): nat {
    if values == [] then 0 else TotalLength(values[..|values| - 1]) + |values[|values| - 1]|
  }

  lemma {:induction false} TotalLengthWithout(values: seq<string>, i: nat)
    requires i < |values|
    ensures TotalLength(values) == TotalLength(values[..i] + values[i + 1..]) + |values[i]|
  {
    var n := |values| - 1;
    if i < n {
      TotalLengthWithout(values[..n], i);
      var rest := values[..i] + values[i + 1..];
      assert rest[..n - 1] == values[..n][..i] + values[..n][i + 1..] && rest[n - 1] == values[n];
    } else {
      assert values[..i] + values[i + 1..] == values[..n];
    }
  }

  lemma {:induction false} MultisetWithout(values: seq<string>, i: nat)
    requires i < |values|
    ensures multiset(values[..i] + values[i + 1..]) == multiset(values) - multiset{values[i]}
  {
    assert values == values[..i] + [values[i]] + values[i + 1..];
  }

  lemma {:induction false} SameValuesSameLength(v: seq<string>, w: seq<string>)
    requires multiset(v) == multiset(w)
    ensures TotalLength(v) == TotalLength(w) && |v| == |w|
  {
    assert |v| == |multiset(v)| == |multiset(w)| == |w|;
    if v != [] {
      var n := |v| - 1;
      assert v[n] in multiset(w);
      var i :| 0 <= i < |w| && w[i] == v[n];
      MultisetWithout(v, n);
      MultisetWithout(w, i);
      assert v[..n] + v[n + 1..] == v[..n];
      SameValuesSameLength(v[..n], w[..i] + w[i + 1..]);
      TotalLengthWithout(w, i);
    }
  }

  lemma {:induction false} JoinedLength(values: seq<string>)
    ensures |Joined(values)| == TotalLength(values) + if values == [] then 0 else |values| - 1
  {
    if |values| == 1 {
      assert values[..0] == [];
    } else if |values| > 1 {
      JoinedLength(values[..|values| - 1]);
    }
  }

  lemma {:induction false} EqualConcatenations(s: string, t: string, u: string, v: string)
    requires |s| == |u|
    ensures s + t == u + v <==> s == u && t == v
  {
    assert (s + t)[..|s|] == s && (s + t)[|s|..] == t && (u + v)[..|u|] == u && (u + v)[|u|..] == v;
  }

  /** Exactly when two equal requests have the same text: each argument's
      values, joined by commas in their order, read the same. */
  lemma {:induction false} EqualRequestsSameTextExactlyWhen(a: Request, b: Request, names: seq<string>)
    requires SameRequest(a, b) && forall name | name in names :: name in a.args
    ensures |HashText(a, names)| == |HashText(b, names)|
    ensures HashText(a, names) == HashText(b, names)
       <==> forall name | name in names :: Joined(a.args[name]) == Joined(b.args[name])
  {
    if names != [] {
      var n := |names| - 1;
      var last := names[n];
      EqualRequestsSameTextExactlyWhen(a, b, names[..n]);
      var v, w := a.args[last], b.args[last];
      SameValuesSameLength(v, w);
      JoinedLength(v);
      JoinedLength(w);
      var head := "/" + last + ":";
      EqualConcatenations(head, Joined(v), head, Joined(w));
      EqualConcatenations(HashText(a, names[..n]), head + Joined(v), HashText(b, names[..n]), head + Joined(w));
      assert forall name :: name in names <==> name in names[..n] || name == last;
    }
  }

  /** So values that contain commas can make one key of two requests that ask
      for different things: equal, with the same text, and another `GetArg`. */
  lemma {:induction false} CommasCanMakeOneKeyOfTwo()
    ensures var a := Request("GET", "m", map["x" := ["a", "a,a"]], false);
            var b := Request("GET", "m", map["x" := ["a,a", "a"]], false);
            Equals(a, b) && HashText(a, ["x"]) == HashText(b, ["x"]) && a.GetArg("x") != b.GetArg("x")
  {
    var v, w := ["a", "a,a"], ["a,a", "a"];
    var a, b := Request("GET", "m", map["x" := v], false), Request("GET", "m", map["x" := w], false);
    assert multiset(v) == multiset(w);
    EqualsDecidesSameRequest(a, b);
    assert v[..1] == ["a"] && w[..1] == ["a,a"];
    assert Joined(v) == "a,a,a" && Joined(w) == "a,a,a";
    EqualRequestsSameTextExactlyWhen(a, b, ["x"]);
    assert a.GetArg("x") == "a" && |b.GetArg("x")| == 3;
  }

  ghost predicate BeginsOneWay(values: seq<string>) {
    forall other | IsReading(values, other) :: other[0] == values[0]
  }

  /** Another order of the values that reads the same. */
  ghost predicate IsReading(values: seq<string>, other: seq<string>) {
    values != [] && other != [] && multiset(other) == multiset(values) && Joined(other) == Joined(values)
  }

  /** The two requests have the same text to hash. */
  ghost predicate SameText(a: Request, b: Request) {
    exists names, others ::
      IsKeyOrder(names, a) && IsKeyOrder(others, b) && HashText(a, names) == HashText(b, others)
  }

  lemma {:induction false} KeyOrder(keys: set<string>) returns (names: seq<string>)
    ensures forall name :: name in names <==> name in keys
    ensures forall i, j | 0 <= i < j < |names| :: Less(names[i], names[j])
  {
    if key :| key in keys {
      var rest := KeyOrder(keys - {key});
      var k := 0;
      while k < |rest| && Less(rest[k], key)
        invariant k <= |rest| && forall i | 0 <= i < k :: Less(rest[i], key)
      {
        k := k + 1;
      }
      names := rest[..k] + [key] + rest[k..];
      forall j | k <= j < |rest|
        ensures Less(key, rest[j])
      {
        assert rest[k] in rest;
        Total(key, rest[k]);
        if k < j { Transitive(key, rest[k], rest[j]); }
      }
      assert forall name :: name in names <==> name in rest || name == key;
    } else {
      names := [];
    }
  }

  /** Equal requests with one text: each argument's values read the same. */
  lemma {:induction false} OneKeyMeansSameReadings(a: Request, b: Request)
    requires Equals(a, b)
    ensures SameText(a, b)
       <==> forall name | name in a.args && name in b.args :: Joined(a.args[name]) == Joined(b.args[name])
  {
    EqualsDecidesSameRequest(a, b);
    var names := KeyOrder(a.args.Keys);
    EqualRequestsSameTextExactlyWhen(a, b, names);
    assert IsKeyOrder(names, a) && IsKeyOrder(names, b);
    if SameText(a, b) {
      var ours, others :| IsKeyOrder(ours, a) && IsKeyOrder(others, b) && HashText(a, ours) == HashText(b, others);
      KeyOrdersAgree(ours, names, a, b);
      KeyOrdersAgree(others, names, b, a);
    }
  }

  lemma {:induction false} NoLaterComma(p: string, x: string)
    requires ',' !in x
    ensures forall k | |p| < k < |p + "," + x| :: (p + "," + x)[k] != ','
  {
    forall k | |p| < k < |p + "," + x|
      ensures (p + "," + x)[k] == x[k - |p| - 1]
    {
    }
  }

  lemma {:induction false} LastCommaSplits(p: string, x: string, q: string, y: string)
    requires p + "," + x == q + "," + y && ',' !in x && ',' !in y
    ensures p == q && x == y
  {
    var s := p + "," + x;
    NoLaterComma(p, x);
    NoLaterComma(q, y);
    assert s[|p|] == ',' && (q + "," + y)[|q|] == ',';
    assert |p| == |q|;
    assert p == s[..|p|] && q == s[..|q|] && x == s[|p| + 1..] && y == s[|q| + 1..];
  }

  /** Lists without commas are read off their joined text. */
  lemma {:induction false} JoinedIsInjective(v: seq<string>, w: seq<string>)
    requires |v| == |w| && Joined(v) == Joined(w)
    requires forall i | 0 <= i < |v| :: ',' !in v[i] && ',' !in w[i]
    ensures v == w
  {
    if |v| > 1 {
      var n := |v| - 1;
      LastCommaSplits(Joined(v[..n]), v[n], Joined(w[..n]), w[n]);
      JoinedIsInjective(v[..n], w[..n]);
      assert v == v[..n] + [v[n]] && w == w[..n] + [w[n]];
    }
  }

  /** Without commas one key means one request: the same arguments with the
      same values in the same order. */
  lemma {:induction false} CommaFreeKeysAreExact(a: Request, b: Request)
    requires Equals(a, b) && SameText(a, b) && a.CommaFree()
    ensures a.args == b.args
  {
    EqualsDecidesSameRequest(a, b);
    OneKeyMeansSameReadings(a, b);
    forall name | name in a.args
      ensures a.args[name] == b.args[name]
    {
      var v, w := a.args[name], b.args[name];
      assert |v| == |multiset(v)| == |multiset(w)| == |w|;
      forall i | 0 <= i < |w|
        ensures ',' !in w[i]
      {
        assert w[i] in multiset(v);
      }
      JoinedIsInjective(v, w);
    }
  }

  /** Exactly when the requests of one key answer every `GetArg` alike. */
  lemma {:induction false} OneKeyAnswersAlikeExactlyWhen(a: Request)
    ensures (forall b, name :: Equals(a, b) && SameText(a, b) ==> a.GetArg(name) == b.GetArg(name)) <==> a.ReadsOneWay()
  {
    if a.ReadsOneWay() {
      forall b, name | Equals(a, b) && SameText(a, b)
        ensures a.GetArg(name) == b.GetArg(name)
      {
        OneKeyAnswersAlike(a, b, name);
      }
    } else {
      var name, other := AnotherReading(a);
      var b := a.SetArgVector(name, other);
      ReadingIsOneKey(a, name, other);
      assert b.GetArg(name) != a.GetArg(name);
    }
  }

  lemma {:induction false} OneKeyAnswersAlike(a: Request, b: Request, name: string)
    requires Equals(a, b) && SameText(a, b) && a.ReadsOneWay()
    ensures a.GetArg(name) == b.GetArg(name)
  {
    EqualsDecidesSameRequest(a, b);
    OneKeyMeansSameReadings(a, b);
    if name in a.args && a.args[name] != [] {
      var v, w := a.args[name], b.args[name];
      assert |v| == |multiset(v)| == |multiset(w)| == |w|;
      assert IsReading(v, w) && BeginsOneWay(v);
    }
  }

  lemma {:induction false} AnotherReading(a: Request) returns (name: string, other: seq<string>)
    requires !a.ReadsOneWay()
    ensures name in a.args && IsReading(a.args[name], other) && other[0] != a.args[name][0]
  {
    name :| name in a.args && !BeginsOneWay(a.args[name]);
    other :| IsReading(a.args[name], other) && other[0] != a.args[name][0];
  }

  lemma {:induction false} ReadingIsOneKey(a: Request, name: string, other: seq<string>)
    requires name in a.args && IsReading(a.args[name], other)
    ensures var b := a.SetArgVector(name, other);
            Equals(a, b) && Equals(b, a) && SameText(a, b) && SameText(b, a)
  {
    var b := a.SetArgVector(name, other);
    assert a.args.Keys == b.args.Keys;
    EqualsDecidesSameRequest(a, b);
    EqualsDecidesSameRequest(b, a);
    OneKeyMeansSameReadings(a, b);
    OneKeyMeansSameReadings(b, a);
  }

  /** Without commas a request reads one way. */
  lemma {:induction false} CommaFreeReadsOneWay(a: Request)
    requires a.CommaFree()
    ensures a.ReadsOneWay()
  {
    forall name | name in a.args
      ensures BeginsOneWay(a.args[name])
    {
      forall other | IsReading(a.args[name], other)
        ensures other[0] == a.args[name][0]
      {
        ReadingIsOneKey(a, name, other);
        CommaFreeKeysAreExact(a, a.SetArgVector(name, other));
        assert a.SetArgVector(name, other).args[name] == other;
      }
    }
  }

  /** In another order it need not: these requests are equal, their texts differ. */
  lemma {:induction false} OrderChangesTheHash()
    ensures var a := Request("GET", "m", map["x" := ["1", "2"]], false);
            var b := Request("GET", "m", map["x" := ["2", "1"]], false);
            Equals(a, b) && HashText(a, ["x"]) != HashText(b, ["x"])
  {
    var v, w := ["1", "2"], ["2", "1"];
    var a, b := Request("GET", "m", map["x" := v], false), Request("GET", "m", map["x" := w], false);
    assert multiset(v) == multiset(w);
    EqualsDecidesSameRequest(a, b);
    assert v[..1] == ["1"] && w[..1] == ["2"];
    assert Joined(v)[0] == '1' && Joined(w)[0] == '2';
    EqualRequestsSameTextExactlyWhen(a, b, ["x"]);
    assert "x" in ["x"];
  }

  /** Setting an argument by one value changes the answer for that argument
      only, and keeps a request uniform. */
  lemma {:induction false} SetArgAnswers(r: Request, name: string, value: string)
    ensures r.SetArg(name, value).GetArg(name) == value
    ensures forall other | other != name :: r.SetArg(name, value).GetArg(other) == r.GetArg(other)
    ensures r.Uniform() ==> r.SetArg(name, value).Uniform()
  {
  }

  /** Equal requests give the same answer to every `GetArg` when one of them
      has, for each argument, only one value, once or several times. */
  lemma {:induction false} EqualUniformRequestsAgree(a: Request, b: Request)
    requires Equals(a, b) && a.Uniform()
    ensures forall name :: a.GetArg(name) == b.GetArg(name)
  {
    EqualsDecidesSameRequest(a, b);
    forall name
      ensures a.GetArg(name) == b.GetArg(name)
    {
      if name in a.args {
        var v, w := a.args[name], b.args[name];
        assert |v| == |multiset(v)| == |multiset(w)| == |w|;
        if v != [] {
          assert w[0] in multiset(v);
        }
      }
    }
  }

  /** The request with value `i` of an argument moved to the front. */
  function Fronted(a: Request, name: string, i: nat): Request
    requires name in a.args && i < |a.args[name]|
  {
    var values := a.args[name];
    a.SetArgVector(name, [values[i]] + values[..i] + values[i + 1..])
  }

  lemma {:induction false} FrontedIsEqual(a: Request, name: string, i: nat)
    requires name in a.args && i < |a.args[name]|
    ensures Equals(a, Fronted(a, name, i)) && Equals(Fronted(a, name, i), a)
    ensures Fronted(a, name, i).GetArg(name) == a.args[name][i]
  {
    var values := a.args[name];
    var b := Fronted(a, name, i);
    MultisetWithout(values, i);
    assert b.args[name] == [values[i]] + (values[..i] + values[i + 1..]);
    assert multiset(b.args[name]) == multiset(values);
    assert a.args.Keys == b.args.Keys;
    EqualsDecidesSameRequest(a, b);
    EqualsDecidesSameRequest(b, a);
  }

  /** Exactly when every equal request answers every `GetArg` alike. */
  lemma {:induction false} EqualRequestsAgreeExactlyWhen(a: Request)
    ensures (forall b, name :: Equals(a, b) ==> a.GetArg(name) == b.GetArg(name)) <==> a.Uniform()
  {
    if a.Uniform() {
      forall b | Equals(a, b)
        ensures forall name :: a.GetArg(name) == b.GetArg(name)
      {
        EqualUniformRequestsAgree(a, b);
      }
    } else {
      var name, i := AnotherValue(a);
      FrontedIsEqual(a, name, i);
      assert a.GetArg(name) != Fronted(a, name, i).GetArg(name);
    }
  }

  /** One such pair: the same two values in the other order. */
  lemma {:induction false} EqualManyValuesMayDiffer()
    ensures var a := Request("GET", "m", map["x" := ["1", "2"]], false);
            var b := Request("GET", "m", map["x" := ["2", "1"]], false);
            Equals(a, b) && a.GetArg("x") != b.GetArg("x")
  {
    OrderChangesTheHash();
  }

  lemma {:induction false} AnotherValue(a: Request) returns (name: string, i: nat)
    requires !a.Uniform()
    ensures name in a.args && i < |a.args[name]| && a.args[name][i] != a.GetArg(name)
  {
    name, i :| name in a.args && 0 <= i < |a.args[name]| && a.args[name][i] != a.args[name][0];
  }
}
