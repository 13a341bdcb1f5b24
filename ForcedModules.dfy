/** A model of Gradle's `ForcedModuleBuilder`: it turns the (already
    normalised) notations of forced modules into an insertion-ordered,
    duplicate-free collection of module identifiers. */
module ForcedModules {
  import opened JavaStrings

  /** A module identifier, compared by its three fields. */
  datatype ModuleId = ModuleId(group: string, name: string, version: string)

  /** One forced-module notation: an identifier object or a string. */
  datatype Notation = Id(id: ModuleId) | Str(text: string)

  /** `ForcedModuleBuilder.InvalidDependencyFormat`, with its message. */
  datatype Error = InvalidDependencyFormat(message: string)

  datatype Result<T> = Ok(value: T) | Err(error: Error)

  /** True when `needle` occurs somewhere in `msg`. */
  ghost predicate Mentions(msg: string, needle: string) {
    exists p, q :: msg == p + needle + q
  }

  const Separator: char := ':'

  /** The text of the exception raised for a malformed string notation. */
  function InvalidFormatMessage(notation: string): (msg: string)
    ensures Mentions(msg, notation)
  {
    var before := "Invalid format: '";
    var after := "'. Correct notation is a 3-part group:name:version notation,"
      + "e.g: org.gradle:gradle-core:1.0-milestone-3";
    before + notation + after
  }

  /** `ForcedModuleBuilder.identifier`: the fields are taken positionally. */
  function Identifier(group: string, name: string, version: string): (m: ModuleId)
    ensures m.group == group && m.name == name && m.version == version
  {
    ModuleId(group, name, version)
  }

  /** `parseString`: split on ':' the Java way; exactly three parts are
      group, name and version, any other count is an invalid format. */
  function ParseString(notation: string): (r: Result<ModuleId>)
    ensures r.Ok? <==> |Split(notation, Separator)| == 3
    ensures r.Ok? ==> (r.value.group == Split(notation, Separator)[0]
                       && r.value.name == Split(notation, Separator)[1]
                       && r.value.version == Split(notation, Separator)[2])
    ensures r.Err? ==> r.error.InvalidDependencyFormat? && Mentions(r.error.message, notation)
  {
    var split := Split(notation, Separator);
    if |split| != 3 then
      Err(InvalidDependencyFormat(InvalidFormatMessage(notation)))
    else
      Ok(Identifier(split[0], split[1], split[2]))
  }

  /** `parseSingleNotation` on identifier and string notations. */
  function ParseSingleNotation(n: Notation): (r: Result<ModuleId>)
    ensures n.Id? ==> r == Ok(n.id)
    ensures n.Str? ==> r == ParseString(n.text)
  {
    match n
    case Id(id) => Ok(id)
    case Str(text) => ParseString(text)
  }

  /** The canonical "group:name:version" text of an identifier. */
  function Format(m: ModuleId): string {
    m.group + [Separator] + m.name + [Separator] + m.version
  }

  /** The identifiers whose canonical text parses back to them. */
  predicate WellFormed(m: ModuleId) {
    Separator !in m.group && Separator !in m.name && Separator !in m.version
    && m.version != ""
  }

  lemma FormatIsJoin(m: ModuleId)
    ensures Format(m) == Join([m.group, m.name, m.version], Separator)
  {
    var ps := [m.group, m.name, m.version];
    assert ps[1..] == [m.name, m.version];
    assert ps[1..][1..] == [m.version];
    assert Join(ps[1..][1..], Separator) == m.version;
    assert Join(ps[1..], Separator) == m.name + [Separator] + m.version;
    assert Join(ps, Separator) == m.group + [Separator] + (m.name + [Separator] + m.version);
  }

  /** Round trip: a well-formed identifier's text, with any number of trailing
      separators, parses back to that identifier. */
  lemma ParseFormatWithTrailing(m: ModuleId, k: nat)
    requires WellFormed(m)
    ensures ParseString(Format(m) + Repeat(Separator, k)) == Ok(m)
  {
    FormatIsJoin(m);
    SplitOfJoin([m.group, m.name, m.version], Separator, k);
  }

  /** Round trip without trailing separators. */
  lemma ParseFormat(m: ModuleId)
    requires WellFormed(m)
    ensures ParseString(Format(m)) == Ok(m)
  {
    ParseFormatWithTrailing(m, 0);
    assert Format(m) + Repeat(Separator, 0) == Format(m);
  }

  /** Exactly the strings of the form group:name:version followed by zero or
      more ':' are accepted, with colon-free fields and a non-empty version;
      every other string is rejected. */
  lemma ParseStringAccepts(s: string, m: ModuleId)
    ensures ParseString(s) == Ok(m)
        <==> WellFormed(m) && exists k: nat :: s == Format(m) + Repeat(Separator, k)
  {
    if ParseString(s) == Ok(m) {
      var split := Split(s, Separator);
      SplitJoinsBack(s, Separator);
      FormatIsJoin(m);
      assert split == [m.group, m.name, m.version];
    }
    if WellFormed(m) && exists k: nat :: s == Format(m) + Repeat(Separator, k) {
      var k: nat :| s == Format(m) + Repeat(Separator, k);
      ParseFormatWithTrailing(m, k);
    }
  }

  /** Interior empty parts are kept and trailing ones dropped. */
  lemma ParseStringAcceptedExamples()
    ensures ParseString("a:b:c") == Ok(ModuleId("a", "b", "c"))
    ensures ParseString("a::c") == Ok(ModuleId("a", "", "c"))
    ensures ParseString("a:b:c:") == Ok(ModuleId("a", "b", "c"))
  {
    ParseFormat(ModuleId("a", "b", "c"));
    assert Format(ModuleId("a", "b", "c")) == "a:b:c";
    ParseFormat(ModuleId("a", "", "c"));
    assert Format(ModuleId("a", "", "c")) == "a::c";
    ParseFormatWithTrailing(ModuleId("a", "b", "c"), 1);
    assert Format(ModuleId("a", "b", "c")) + Repeat(Separator, 1) == "a:b:c:";
  }

  /** The empty string is one empty part, so it is rejected. */
  lemma ParseStringRejectsEmpty()
    ensures ParseString("").Err?
  {
    assert Split("", Separator) == [""];
  }

  /** Two parts are rejected, also when a trailing empty third part is
      dropped. */
  lemma ParseStringRejectsTwoParts()
    ensures ParseString("a:b").Err?
    ensures ParseString("a:b:").Err?
  {
    assert Split("a:b", Separator) == ["a", "b"] by {
      SplitOfJoin(["a", "b"], Separator, 0);
      assert Join(["a", "b"], Separator) + Repeat(Separator, 0) == "a:b";
    }
    assert Split("a:b:", Separator) == ["a", "b"] by {
      SplitOfJoin(["a", "b"], Separator, 1);
      assert Join(["a", "b"], Separator) + Repeat(Separator, 1) == "a:b:";
    }
  }

  /** Four parts are rejected. */
  lemma ParseStringRejectsFourParts()
    ensures ParseString("a:b:c:d").Err?
  {
    var ps := ["a", "b", "c", "d"];
    SplitOfJoin(ps, Separator, 0);
    assert ps[1..] == ["b", "c", "d"];
    assert ps[1..][1..] == ["c", "d"];
    assert ps[1..][1..][1..] == ["d"];
    assert Join(ps[1..][1..], Separator) == "c:d";
    assert Join(ps[1..], Separator) == "b:c:d";
    assert Join(ps, Separator) + Repeat(Separator, 0) == "a:b:c:d";
  }

  /** Every notation of `ns` is a valid one. */
  predicate AllValid(ns: seq<Notation>) {
    forall i :: 0 <= i < |ns| ==> ParseSingleNotation(ns[i]).Ok?
  }

  /** `ns[i]` is the first invalid notation, and its error is `e`. */
  predicate FirstInvalid(ns: seq<Notation>, i: int, e: Error) {
    0 <= i < |ns| && ParseSingleNotation(ns[i]) == Err(e) && AllValid(ns[..i])
  }

  /** Every notation parsed, in order, stopping at the first invalid one. */
  function ParseAll(ns: seq<Notation>): Result<seq<ModuleId>>
    decreases |ns|
  {
    if ns == [] then Ok([])
    else
      match ParseAll(ns[..|ns| - 1])
      case Err(e) => Err(e)
      case Ok(ms) =>
        match ParseSingleNotation(ns[|ns| - 1])
        case Err(e) => Err(e)
        case Ok(m) => Ok(ms + [m])
  }

  /** Parsing all notations succeeds exactly when each one is valid, yields
      each one's identifier at its position, and otherwise fails with the
      error of the first invalid notation. */
  lemma {:induction false} ParseAllSpec(ns: seq<Notation>)
    ensures ParseAll(ns).Ok? <==> AllValid(ns)
    ensures ParseAll(ns).Ok? ==> (|ParseAll(ns).value| == |ns|
      && forall i :: 0 <= i < |ns| ==> ParseSingleNotation(ns[i]) == Ok(ParseAll(ns).value[i]))
    ensures ParseAll(ns).Err? ==> exists i :: FirstInvalid(ns, i, ParseAll(ns).error)
    decreases |ns|
  {
    if ns != [] {
      var pre := ns[..|ns| - 1];
      ParseAllSpec(pre);
      assert forall i :: 0 <= i < |pre| ==> pre[i] == ns[i];
      match ParseAll(pre)
      case Err(e) =>
        var i :| FirstInvalid(pre, i, e);
        assert pre[..i] == ns[..i];
        assert FirstInvalid(ns, i, e);
      case Ok(ms) =>
        match ParseSingleNotation(ns[|ns| - 1])
        case Err(e) =>
          assert FirstInvalid(ns, |ns| - 1, e);
        case Ok(m) =>
    }
  }

  predicate NoDuplicates<T(==)>(s: seq<T>) {
    forall i, j :: 0 <= i < j < |s| ==> s[i] != s[j]
  }

  /** The first occurrences of the elements of `ms`, in order: what a
      `LinkedHashSet` holds after adding `ms` one by one. */
  function Distinct(ms: seq<ModuleId>): (r: seq<ModuleId>)
    ensures NoDuplicates(r)
    ensures forall x :: x in r <==> x in ms
    ensures |r| <= |ms|
    decreases |ms|
  {
    if ms == [] then []
    else
      var d := Distinct(ms[..|ms| - 1]);
      if ms[|ms| - 1] in d then d else d + [ms[|ms| - 1]]
  }

  /** The position of the first occurrence of `x` in `s`. */
  function IndexOf<T(==)>(s: seq<T>, x: T): (i: nat)
    requires x in s
    ensures i < |s| && s[i] == x && x !in s[..i]
  {
    if s[0] == x then 0 else 1 + IndexOf(s[1..], x)
  }

  lemma IndexOfPrefix<T>(s: seq<T>, n: nat, x: T)
    requires n <= |s| && x in s[..n]
    ensures IndexOf(s, x) == IndexOf(s[..n], x)
  {
    var i, j := IndexOf(s, x), IndexOf(s[..n], x);
    assert s[..n][..j] == s[..j];
  }

  /** `Distinct` keeps first occurrences in the order they occur. */
  lemma {:induction false} DistinctOrder(ms: seq<ModuleId>)
    ensures forall i, j :: 0 <= i < j < |Distinct(ms)| ==>
              IndexOf(ms, Distinct(ms)[i]) < IndexOf(ms, Distinct(ms)[j])
    decreases |ms|
  {
    if ms != [] {
      var n := |ms| - 1;
      var pre := ms[..n];
      DistinctOrder(pre);
      var d := Distinct(pre);
      forall x | x in d ensures IndexOf(ms, x) == IndexOf(pre, x) < n {
        IndexOfPrefix(ms, n, x);
      }
      if ms[n] !in d {
        assert IndexOf(ms, ms[n]) == n by {
          assert ms[..n] == pre;
        }
      }
    }
  }

  /** A later repetition of an element adds nothing. */
  lemma {:induction false} DistinctRepeat(a: seq<ModuleId>, x: ModuleId, b: seq<ModuleId>)
    requires x in a
    ensures Distinct(a + [x] + b) == Distinct(a + b)
    decreases |b|
  {
    if b == [] {
      assert (a + [x] + b)[..|a|] == a;
      assert a + b == a;
    } else {
      var b' := b[..|b| - 1];
      DistinctRepeat(a, x, b');
      assert (a + [x] + b)[..|a| + |b|] == a + [x] + b';
      assert (a + b)[..|a| + |b| - 1] == a + b';
    }
  }

  /** The result of `build`, as a value. */
  function Built(ns: seq<Notation>): (r: Result<seq<ModuleId>>)
    ensures r.Ok? <==> AllValid(ns)
    ensures r.Ok? ==> NoDuplicates(r.value) && |r.value| <= |ns|
    ensures r.Ok? ==> forall m :: m in r.value <==>
                        exists i :: 0 <= i < |ns| && ParseSingleNotation(ns[i]) == Ok(m)
    ensures r.Err? ==> exists i :: FirstInvalid(ns, i, r.error)
  {
    ParseAllSpec(ns);
    match ParseAll(ns)
    case Err(e) => Err(e)
    case Ok(ms) =>
      assert forall m :: m in ms <==> exists i :: 0 <= i < |ns| && ParseSingleNotation(ns[i]) == Ok(m) by {
        forall m ensures m in ms <==> exists i :: 0 <= i < |ns| && ParseSingleNotation(ns[i]) == Ok(m) {
          if m in ms {
            var i :| 0 <= i < |ms| && ms[i] == m;
            assert ParseSingleNotation(ns[i]) == Ok(m);
          }
        }
      }
      Ok(Distinct(ms))
  }

  /** The identifiers come out in the order of the first notation naming
      each of them. */
  lemma BuiltOrder(ns: seq<Notation>)
    requires Built(ns).Ok?
    ensures forall i, j :: 0 <= i < j < |Built(ns).value| ==>
              IndexOf(ParseAll(ns).value, Built(ns).value[i])
              < IndexOf(ParseAll(ns).value, Built(ns).value[j])
  {
    DistinctOrder(ParseAll(ns).value);
  }

  /** An error in a prefix is the error of the whole. */
  lemma {:induction false} ParseAllPrefixErr(a: seq<Notation>, b: seq<Notation>)
    requires ParseAll(a).Err?
    ensures ParseAll(a + b) == ParseAll(a)
    decreases |b|
  {
    if b == [] {
      assert a + b == a;
    } else {
      var b' := b[..|b| - 1];
      ParseAllPrefixErr(a, b');
      assert (a + b)[..|a + b| - 1] == a + b';
    }
  }

  /** After a valid prefix, the error of the rest is the error of the whole. */
  lemma {:induction false} ParseAllSuffixErr(a: seq<Notation>, b: seq<Notation>)
    requires ParseAll(a).Ok? && ParseAll(b).Err?
    ensures ParseAll(a + b) == ParseAll(b)
    decreases |b|
  {
    assert b != [];
    var n := |b| - 1;
    var b' := b[..n];
    assert (a + b)[..|a| + n] == a + b';
    assert (a + b)[|a + b| - 1] == b[|b| - 1];
    if ParseAll(b').Err? {
      ParseAllSuffixErr(a, b');
    } else {
      ParseAllValid(a, b');
    }
  }

  /** Parsing a concatenation of valid inputs concatenates the parses. */
  lemma {:induction false} ParseAllValid(a: seq<Notation>, b: seq<Notation>)
    requires ParseAll(a).Ok? && ParseAll(b).Ok?
    ensures ParseAll(a + b) == Ok(ParseAll(a).value + ParseAll(b).value)
    decreases |b|
  {
    if b == [] {
      assert a + b == a;
      assert ParseAll(a).value + [] == ParseAll(a).value;
    } else {
      var b' := b[..|b| - 1];
      ParseAllValid(a, b');
      assert (a + b)[..|a + b| - 1] == a + b';
      assert (a + b)[|a + b| - 1] == b[|b| - 1];
      var as', bs' := ParseAll(a).value, ParseAll(b').value;
      var m := ParseSingleNotation(b[|b| - 1]).value;
      assert as' + (bs' + [m]) == as' + bs' + [m];
    }
  }

  /** Repeating an earlier notation later in the input changes nothing. */
  lemma RepeatedNotation(ns: seq<Notation>, i: nat, j: nat)
    requires i < j <= |ns|
    ensures Built(ns[..j] + [ns[i]] + ns[j..]) == Built(ns)
  {
    var a, b := ns[..j], ns[j..];
    var a' := a + [ns[i]];
    assert ns == a + b;
    assert ns[..j] + [ns[i]] + ns[j..] == a' + b;
    assert a'[..|a'| - 1] == a;
    if ParseAll(a).Err? {
      ParseAllPrefixErr(a, b);
      ParseAllPrefixErr(a', b);
    } else {
      var as' := ParseAll(a).value;
      ParseAllSpec(a);
      assert a[i] == ns[i];
      assert ParseSingleNotation(ns[i]) == Ok(as'[i]);
      assert ParseAll(a') == Ok(as' + [as'[i]]);
      if ParseAll(b).Err? {
        ParseAllSuffixErr(a, b);
        ParseAllSuffixErr(a', b);
      } else {
        ParseAllValid(a, b);
        ParseAllValid(a', b);
        DistinctRepeat(as', as'[i], ParseAll(b).value);
      }
    }
  }

  lemma {:induction false} ParseAllErrPersists(ns: seq<Notation>, n: nat)
    requires n <= |ns| && ParseAll(ns[..n]).Err?
    ensures ParseAll(ns) == ParseAll(ns[..n])
  {
    ParseAllPrefixErr(ns[..n], ns[n..]);
    assert ns[..n] + ns[n..] == ns;
  }

  /** `ForcedModuleBuilder.build` over the normalised notations: parse each
      one and add it to an insertion-ordered set; an invalid notation throws
      and no set is returned. */
  method Build(notations: seq<Notation>) returns (r: Result<seq<ModuleId>>)
    ensures r == Built(notations)
  {
    var out: seq<ModuleId> := [];
    for i := 0 to |notations|
      invariant Built(notations[..i]) == Ok(out)
    {
      assert notations[..i + 1][..i] == notations[..i];
      var parsed := ParseSingleNotation(notations[i]);
      if parsed.Err? {
        ParseAllErrPersists(notations, i + 1);
        return Err(parsed.error);
      }
      if parsed.value !in out {
        out := out + [parsed.value];
      }
    }
    assert notations[..|notations|] == notations;
    return Ok(out);
  }
}
