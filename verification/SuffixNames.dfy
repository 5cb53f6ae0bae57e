/** toSuffixString is uniquely decodable (bolt/exec/AggregateCompanionSignatures.cpp:86-109). */
module SuffixNames {
  import opened Types
  import opened TypeSignatures

  function UpperChar(c: char): char {
    if 'a' <= c <= 'z' then (c as int - 32) as char else c
  }

  function LowerChar(c: char): char {
    if 'A' <= c <= 'Z' then (c as int + 32) as char else c
  }

  function Upper(s: string): (r: string)
    ensures |r| == |s|
  {
    seq(|s|, i requires 0 <= i < |s| => UpperChar(s[i]))
  }

  /** sanitizeName. */
  function Lower(s: string): (r: string)
    ensures |r| == |s| && forall i | 0 <= i < |s| :: r[i] == LowerChar(s[i])
  {
    seq(|s|, i requires 0 <= i < |s| => LowerChar(s[i]))
  }

  predicate HasCapital(s: string) {
    exists i | 0 <= i < |s| :: 'A' <= s[i] <= 'Z'
  }

  /** Sanitizing takes the capitals out, changes nothing else, and does not see letter case. */
  lemma LowerIgnoresCase(s: string)
    ensures !HasCapital(Lower(s)) && Lower(Upper(s)) == Lower(s)
    ensures !HasCapital(s) ==> Lower(s) == s
    ensures forall i | 0 <= i < |s| && !('A' <= s[i] <= 'Z') :: Lower(s)[i] == s[i]
  {
  }

  /** toSuffixString; `None` where the source reaches BOLT_UNREACHABLE or reads a missing parameter. */
  function ToSuffixString(t: TypeSig): Option<string> {
    if t.parameters == [] || t.baseName == "DECIMAL" then Some(t.baseName)
    else if Upper(t.baseName) == "ARRAY" then
      (match ToSuffixString(t.parameters[0])
       case None => None
       case Some(s) => Some("array_" + s))
    else if Upper(t.baseName) == "MAP" then
      if |t.parameters| < 2 then None
      else
        (match (ToSuffixString(t.parameters[0]), ToSuffixString(t.parameters[1]))
         case (Some(k), Some(v)) => Some("map_" + k + "_" + v)
         case _ => None)
    else if Upper(t.baseName) == "ROW" then RowSuffix(t.parameters, "row")
    else None
  }

  /** The loop over row children, with the string built so far. */
  function RowSuffix(ts: seq<TypeSig>, result: string): Option<string> {
    if ts == [] then Some(result + "_endrow")
    else
      match ToSuffixString(ts[0])
      case None => None
      case Some(s) => RowSuffix(ts[1..], result + "_" + s)
  }

  // ----- the types the encoding is meant for -----

  const RESERVED: set<string> := {"array", "map", "row", "endrow"}

  /** Types that the suffix gives by their name alone; of a decimal it drops precision and scale. */
  predicate IsLeaf(t: TypeSig) {
    t.parameters == [] || t.baseName == "DECIMAL"
  }

  /** Leaf names hold no underscore and are no keyword of the encoding; constructors have their arity. */
  predicate Suffixable(t: TypeSig) {
    if IsLeaf(t) then '_' !in t.baseName && t.baseName !in RESERVED
    else
      && (forall i | 0 <= i < |t.parameters| :: Suffixable(t.parameters[i]))
      && ((Upper(t.baseName) == "ARRAY" && |t.parameters| == 1)
          || (Upper(t.baseName) == "MAP" && |t.parameters| == 2)
          || Upper(t.baseName) == "ROW")
  }

  /** The type without what the suffix does not carry: constructor case, row field names, decimal parameters. */
  function Canonical(t: TypeSig): TypeSig {
    if IsLeaf(t) then TypeSig(t.baseName, [], None)
    else TypeSig(Upper(t.baseName),
                 seq(|t.parameters|, i requires 0 <= i < |t.parameters| => Canonical(t.parameters[i])),
                 None)
  }

  // ----- tokens -----

  function Tokens(t: TypeSig): seq<string>
    requires Suffixable(t)
    decreases t, 1
  {
    if IsLeaf(t) then [t.baseName]
    else if Upper(t.baseName) == "ARRAY" then ["array"] + Tokens(t.parameters[0])
    else if Upper(t.baseName) == "MAP" then ["map"] + Tokens(t.parameters[0]) + Tokens(t.parameters[1])
    else ["row"] + AllTokens(t.parameters) + ["endrow"]
  }

  function AllTokens(ts: seq<TypeSig>): seq<string>
    requires forall i | 0 <= i < |ts| :: Suffixable(ts[i])
    decreases ts, 0
  {
    if ts == [] then [] else Tokens(ts[0]) + AllTokens(ts[1..])
  }

  function Join(ts: seq<string>): string
    requires ts != []
  {
    if |ts| == 1 then ts[0] else ts[0] + "_" + Join(ts[1..])
  }

  lemma {:induction false} JoinConcat(a: seq<string>, b: seq<string>)
    requires a != [] && b != []
    ensures Join(a + b) == Join(a) + "_" + Join(b)
  {
    if |a| == 1 {
      assert (a + b)[1..] == b;
    } else {
      assert (a + b)[1..] == a[1..] + b;
      JoinConcat(a[1..], b);
    }
  }

  lemma TokensNonEmpty(t: TypeSig)
    requires Suffixable(t)
    ensures Tokens(t) != []
  {}

  /** The string the source builds is the underscore-separated token list. */
  lemma {:induction false} SuffixIsJoinedTokens(t: TypeSig)
    requires Suffixable(t)
    ensures Tokens(t) != [] && ToSuffixString(t) == Some(Join(Tokens(t)))
    decreases t, 1
  {
    TokensNonEmpty(t);
    if !IsLeaf(t) {
      var first := t.parameters[0];
      SuffixIsJoinedTokens(first);
      if Upper(t.baseName) == "ARRAY" {
        JoinConcat(["array"], Tokens(first));
        assert "array" + "_" == "array_";
      } else if Upper(t.baseName) == "MAP" {
        var second := t.parameters[1];
        SuffixIsJoinedTokens(second);
        JoinConcat(["map"] + Tokens(first), Tokens(second));
        JoinConcat(["map"], Tokens(first));
        assert "map" + "_" == "map_";
      } else {
        RowSuffixIsJoinedTokens(t.parameters, ["row"]);
      }
    }
  }

  lemma {:induction false} RowSuffixIsJoinedTokens(ts: seq<TypeSig>, before: seq<string>)
    requires before != [] && forall i | 0 <= i < |ts| :: Suffixable(ts[i])
    ensures RowSuffix(ts, Join(before)) == Some(Join(before + AllTokens(ts) + ["endrow"]))
    decreases ts, 0
  {
    if ts == [] {
      assert before + AllTokens(ts) + ["endrow"] == before + ["endrow"];
      JoinConcat(before, ["endrow"]);
      assert Join(before) + "_" + "endrow" == Join(before) + "_endrow";
    } else {
      SuffixIsJoinedTokens(ts[0]);
      JoinConcat(before, Tokens(ts[0]));
      RowSuffixIsJoinedTokens(ts[1..], before + Tokens(ts[0]));
      calc {
        before + Tokens(ts[0]) + AllTokens(ts[1..]) + ["endrow"];
        before + (Tokens(ts[0]) + AllTokens(ts[1..])) + ["endrow"];
        before + AllTokens(ts) + ["endrow"];
      }
    }
  }

  // ----- splitting at underscores undoes joining -----

  function Split(s: string): (ts: seq<string>)
    ensures ts != []
  {
    if s == "" then [""]
    else if s[0] == '_' then [""] + Split(s[1..])
    else [[s[0]] + Split(s[1..])[0]] + Split(s[1..])[1..]
  }

  lemma {:induction false} SplitToken(token: string, rest: string)
    requires '_' !in token
    ensures Split(token + "_" + rest) == [token] + Split(rest)
  {
    if token == "" {
      assert (token + "_" + rest)[1..] == rest;
    } else {
      assert (token + "_" + rest)[1..] == token[1..] + "_" + rest;
      SplitToken(token[1..], rest);
      assert [token[0]] + token[1..] == token;
    }
  }

  lemma {:induction false} SplitLast(token: string)
    requires '_' !in token
    ensures Split(token) == [token]
  {
    if token != "" {
      SplitLast(token[1..]);
      assert [token[0]] + token[1..] == token;
    }
  }

  lemma {:induction false} SplitJoin(ts: seq<string>)
    requires ts != [] && forall i | 0 <= i < |ts| :: '_' !in ts[i]
    ensures Split(Join(ts)) == ts
  {
    if |ts| == 1 {
      SplitLast(ts[0]);
    } else {
      SplitJoin(ts[1..]);
      SplitToken(ts[0], Join(ts[1..]));
      assert [ts[0]] + ts[1..] == ts;
    }
  }

  lemma {:induction false} TokensPlain(t: TypeSig)
    requires Suffixable(t)
    ensures forall i | 0 <= i < |Tokens(t)| :: '_' !in Tokens(t)[i]
    decreases t, 1
  {
    if !IsLeaf(t) {
      forall i | 0 <= i < |t.parameters| { TokensPlain(t.parameters[i]); }
      if Upper(t.baseName) == "ROW" { AllTokensPlain(t.parameters); }
    }
  }

  lemma {:induction false} AllTokensPlain(ts: seq<TypeSig>)
    requires forall i | 0 <= i < |ts| :: Suffixable(ts[i])
    ensures forall i | 0 <= i < |AllTokens(ts)| :: '_' !in AllTokens(ts)[i]
    decreases ts, 0
  {
    if ts != [] {
      TokensPlain(ts[0]);
      AllTokensPlain(ts[1..]);
    }
  }

  // ----- the token list is a prefix code -----

  lemma TokensHead(t: TypeSig)
    requires Suffixable(t)
    ensures Tokens(t) != [] && Tokens(t)[0] != "endrow"
    ensures IsLeaf(t) <==> Tokens(t)[0] !in RESERVED
    ensures !IsLeaf(t) ==> (Upper(t.baseName) == "ARRAY" <==> Tokens(t)[0] == "array")
    ensures !IsLeaf(t) ==> (Upper(t.baseName) == "MAP" <==> Tokens(t)[0] == "map")
  {}

  lemma MapTokens(t: TypeSig, after: seq<string>)
    requires Suffixable(t) && !IsLeaf(t) && Upper(t.baseName) == "MAP"
    ensures (Tokens(t) + after)[1..] == Tokens(t.parameters[0]) + (Tokens(t.parameters[1]) + after)
  {
    var a, b := Tokens(t.parameters[0]), Tokens(t.parameters[1]);
    assert (["map"] + a + b + after)[1..] == a + (b + after);
  }

  lemma Regroup(whole: seq<string>, a: seq<string>, b: seq<string>, c: seq<string>, d: seq<string>)
    requires whole == a + b && a != []
    ensures whole + c + d == a + (b + c + d) && (whole + c + d)[0] == a[0]
  {
    assert a + b + c + d == a + (b + c + d);
  }

  lemma NoRowTokens(after: seq<string>)
    ensures AllTokens([]) + ["endrow"] + after == ["endrow"] + after && (["endrow"] + after)[1..] == after
  {
  }

  lemma {:induction false} PrefixCode(t: TypeSig, after: seq<string>, u: TypeSig, after': seq<string>)
    requires Suffixable(t) && Suffixable(u) && Tokens(t) + after == Tokens(u) + after'
    ensures Canonical(t) == Canonical(u) && after == after'
    decreases t, 1
  {
    TokensHead(t);
    TokensHead(u);
    assert Tokens(t)[0] == (Tokens(t) + after)[0] == (Tokens(u) + after')[0] == Tokens(u)[0];
    if IsLeaf(t) {
      assert (Tokens(t) + after)[1..] == after && (Tokens(u) + after')[1..] == after';
    } else if Upper(t.baseName) == "ARRAY" {
      var rest, rest' := Tokens(t.parameters[0]) + after, Tokens(u.parameters[0]) + after';
      assert (Tokens(t) + after)[1..] == rest && (Tokens(u) + after')[1..] == rest';
      PrefixCode(t.parameters[0], after, u.parameters[0], after');
    } else if Upper(t.baseName) == "MAP" {
      PrefixCodeMap(t, after, u, after');
    } else {
      var rest, rest' := AllTokens(t.parameters) + ["endrow"] + after, AllTokens(u.parameters) + ["endrow"] + after';
      assert (Tokens(t) + after)[1..] == rest && (Tokens(u) + after')[1..] == rest';
      PrefixCodeRow(t.parameters, after, u.parameters, after');
    }
  }

  lemma {:induction false} PrefixCodeMap(t: TypeSig, after: seq<string>, u: TypeSig, after': seq<string>)
    requires Suffixable(t) && Suffixable(u) && Tokens(t) + after == Tokens(u) + after'
    requires !IsLeaf(t) && !IsLeaf(u) && Upper(t.baseName) == Upper(u.baseName) == "MAP"
    ensures Canonical(t) == Canonical(u) && after == after'
    decreases t, 0
  {
    var k, v, k', v' := t.parameters[0], t.parameters[1], u.parameters[0], u.parameters[1];
    MapTokens(t, after);
    MapTokens(u, after');
    PrefixCode(k, Tokens(v) + after, k', Tokens(v') + after');
    PrefixCode(v, after, v', after');
  }

  lemma {:induction false} PrefixCodeRow(ts: seq<TypeSig>, after: seq<string>, us: seq<TypeSig>, after': seq<string>)
    requires forall i | 0 <= i < |ts| :: Suffixable(ts[i])
    requires forall i | 0 <= i < |us| :: Suffixable(us[i])
    requires AllTokens(ts) + ["endrow"] + after == AllTokens(us) + ["endrow"] + after'
    ensures |ts| == |us| && after == after'
    ensures forall i | 0 <= i < |ts| :: Canonical(ts[i]) == Canonical(us[i])
    decreases ts, 0
  {
    if ts != [] {
      TokensHead(ts[0]);
      Regroup(AllTokens(ts), Tokens(ts[0]), AllTokens(ts[1..]), ["endrow"], after);
    }
    if us != [] {
      TokensHead(us[0]);
      Regroup(AllTokens(us), Tokens(us[0]), AllTokens(us[1..]), ["endrow"], after');
    }
    NoRowTokens(after);
    NoRowTokens(after');
    if ts != [] && us != [] {
      PrefixCode(ts[0], AllTokens(ts[1..]) + ["endrow"] + after, us[0], AllTokens(us[1..]) + ["endrow"] + after');
      PrefixCodeRow(ts[1..], after, us[1..], after');
      forall i | 0 < i < |ts|
        ensures Canonical(ts[i]) == Canonical(us[i])
      {
        assert ts[i] == ts[1..][i - 1] && us[i] == us[1..][i - 1];
      }
    }
  }

  lemma {:induction false} CanonicalDeterminesTokens(t: TypeSig, u: TypeSig)
    requires Suffixable(t) && Suffixable(u) && Canonical(t) == Canonical(u)
    ensures Tokens(t) == Tokens(u)
    decreases t, 1
  {
    if !IsLeaf(t) {
      assert |t.parameters| == |u.parameters|;
      forall i | 0 <= i < |t.parameters|
        ensures Canonical(t.parameters[i]) == Canonical(u.parameters[i])
      {
        assert Canonical(t).parameters[i] == Canonical(u).parameters[i];
      }
      if Upper(t.baseName) == "ROW" {
        CanonicalDeterminesAllTokens(t.parameters, u.parameters);
      } else {
        forall i | 0 <= i < |t.parameters| { CanonicalDeterminesTokens(t.parameters[i], u.parameters[i]); }
      }
    }
  }

  lemma {:induction false} CanonicalDeterminesAllTokens(ts: seq<TypeSig>, us: seq<TypeSig>)
    requires |ts| == |us|
    requires forall i | 0 <= i < |ts| :: Suffixable(ts[i]) && Suffixable(us[i]) && Canonical(ts[i]) == Canonical(us[i])
    ensures AllTokens(ts) == AllTokens(us)
    decreases ts, 0
  {
    if ts != [] {
      CanonicalDeterminesTokens(ts[0], us[0]);
      CanonicalDeterminesAllTokens(ts[1..], us[1..]);
    }
  }

  /** Two suffixes are equal exactly when the types are, up to constructor case, row field names and decimal parameters. */
  lemma SuffixesEqualIffSameType(t: TypeSig, u: TypeSig)
    requires Suffixable(t) && Suffixable(u)
    ensures ToSuffixString(t).Some? && ToSuffixString(u).Some?
    ensures ToSuffixString(t) == ToSuffixString(u) <==> Canonical(t) == Canonical(u)
  {
    SuffixIsJoinedTokens(t);
    SuffixIsJoinedTokens(u);
    if ToSuffixString(t) == ToSuffixString(u) {
      TokensPlain(t);
      TokensPlain(u);
      SplitJoin(Tokens(t));
      SplitJoin(Tokens(u));
      assert Tokens(t) + [] == Tokens(t) && Tokens(u) + [] == Tokens(u);
      PrefixCode(t, [], u, []);
    }
    if Canonical(t) == Canonical(u) {
      CanonicalDeterminesTokens(t, u);
    }
  }

  /** Decimals share a suffix whatever their precision and scale. */
  lemma DecimalSuffixesCollide(ps: seq<TypeSig>, qs: seq<TypeSig>)
    ensures ToSuffixString(TypeSig("DECIMAL", ps, None)) == ToSuffixString(TypeSig("DECIMAL", qs, None)) == Some("DECIMAL")
  {}

  /** A leaf called like a keyword makes the encoding ambiguous. */
  lemma KeywordLeafCollides(x: TypeSig)
    requires ToSuffixString(x).Some?
    ensures ToSuffixString(TypeSig("row", [TypeSig("array", [], None), x], None))
         == ToSuffixString(TypeSig("row", [TypeSig("array", [x], None)], None))
  {
    var a, b := TypeSig("array", [], None), TypeSig("array", [x], None);
    assert Upper("row") == "ROW" && Upper("array") == "ARRAY";
    var s := ToSuffixString(x).value;
    assert [a, x][1..] == [x] && [x][1..] == [] && [b][1..] == [];
    assert ToSuffixString(a) == Some("array") && "row" + "_" + "array" == "row_array";
    calc {
      RowSuffix([a, x], "row");
      RowSuffix([a, x][1..], "row" + "_" + "array");
      RowSuffix([x], "row_array");
      RowSuffix([], "row_array" + "_" + s);
      Some("row_array" + "_" + s + "_endrow");
    }
    calc {
      RowSuffix([b], "row");
      RowSuffix([], "row" + "_" + ("array_" + s));
      Some("row" + "_" + ("array_" + s) + "_endrow");
    }
    assert "row_array" + "_" + s == "row" + "_" + ("array_" + s);
  }

  // ----- suffixes in lower case, as the registries keep them -----

  /** Leaf names hold no underscore and are no keyword in lower case; constructors have their arity. */
  predicate Registrable(t: TypeSig) {
    if IsLeaf(t) then '_' !in t.baseName && Lower(t.baseName) !in RESERVED
    else
      && (forall i | 0 <= i < |t.parameters| :: Registrable(t.parameters[i]))
      && ((Upper(t.baseName) == "ARRAY" && |t.parameters| == 1)
          || (Upper(t.baseName) == "MAP" && |t.parameters| == 2)
          || Upper(t.baseName) == "ROW")
  }

  /** The type with its leaves in lower case. */
  function LowerLeaves(t: TypeSig): TypeSig {
    if IsLeaf(t) then TypeSig(Lower(t.baseName), [], None)
    else t.(parameters := seq(|t.parameters|, i requires 0 <= i < |t.parameters| => LowerLeaves(t.parameters[i])))
  }

  function LowerAll(ts: seq<string>): (r: seq<string>)
    ensures |r| == |ts| && forall i | 0 <= i < |ts| :: r[i] == Lower(ts[i])
  {
    seq(|ts|, i requires 0 <= i < |ts| => Lower(ts[i]))
  }

  lemma KeywordsAreLower()
    ensures Lower("array") == "array" && Lower("map") == "map" && Lower("row") == "row" && Lower("endrow") == "endrow"
  {}

  lemma {:induction false} LowerJoin(ts: seq<string>)
    requires ts != []
    ensures Lower(Join(ts)) == Join(LowerAll(ts))
  {
    if |ts| > 1 {
      LowerJoin(ts[1..]);
      assert LowerAll(ts)[1..] == LowerAll(ts[1..]);
      assert Lower(ts[0] + "_" + Join(ts[1..])) == Lower(ts[0]) + "_" + Lower(Join(ts[1..]));
    } else {
      assert LowerAll(ts) == [Lower(ts[0])];
    }
  }

  lemma NoUnderscoreLower(s: string)
    requires '_' !in s
    ensures '_' !in Lower(s)
  {}

  lemma {:induction false} RegistrableIsSuffixable(t: TypeSig)
    requires Registrable(t)
    ensures Suffixable(t) && Suffixable(LowerLeaves(t))
    decreases t
  {
    KeywordsAreLower();
    if IsLeaf(t) {
      NoUnderscoreLower(t.baseName);
    } else {
      forall i | 0 <= i < |t.parameters| { RegistrableIsSuffixable(t.parameters[i]); }
    }
  }

  lemma {:induction false} TokensLower(t: TypeSig)
    requires Registrable(t) && Suffixable(t) && Suffixable(LowerLeaves(t))
    ensures Tokens(LowerLeaves(t)) == LowerAll(Tokens(t))
    decreases t, 1
  {
    KeywordsAreLower();
    if !IsLeaf(t) {
      forall i | 0 <= i < |t.parameters|
        ensures Suffixable(t.parameters[i]) && Suffixable(LowerLeaves(t.parameters[i]))
        ensures Tokens(LowerLeaves(t.parameters[i])) == LowerAll(Tokens(t.parameters[i]))
      {
        RegistrableIsSuffixable(t.parameters[i]);
        TokensLower(t.parameters[i]);
      }
      if Upper(t.baseName) == "ROW" { AllTokensLower(t.parameters, LowerLeaves(t).parameters); }
    }
  }

  lemma {:induction false} AllTokensLower(ts: seq<TypeSig>, rs: seq<TypeSig>)
    requires |rs| == |ts| && forall i | 0 <= i < |ts| ::
      Registrable(ts[i]) && Suffixable(ts[i]) && rs[i] == LowerLeaves(ts[i]) && Suffixable(rs[i])
    ensures AllTokens(rs) == LowerAll(AllTokens(ts))
    decreases ts, 0
  {
    if ts != [] {
      TokensLower(ts[0]);
      AllTokensLower(ts[1..], rs[1..]);
      LowerAllAppend(Tokens(ts[0]), AllTokens(ts[1..]));
    }
  }

  lemma LowerAllAppend(a: seq<string>, b: seq<string>)
    ensures LowerAll(a + b) == LowerAll(a) + LowerAll(b)
  {
  }

  /** What a registered suffix tells of a type: all but letter case, row field names and decimal parameters. */
  function SuffixKey(t: TypeSig): TypeSig {
    Canonical(LowerLeaves(t))
  }

  lemma LowerSuffix(t: TypeSig)
    requires Registrable(t)
    ensures ToSuffixString(t).Some? && Suffixable(LowerLeaves(t))
    ensures ToSuffixString(LowerLeaves(t)) == Some(Lower(ToSuffixString(t).value))
  {
    RegistrableIsSuffixable(t);
    SuffixIsJoinedTokens(t);
    SuffixIsJoinedTokens(LowerLeaves(t));
    TokensLower(t);
    LowerJoin(Tokens(t));
  }

  /** Registered suffixes are equal exactly when the types are, up to letter case, row field names and decimal
      parameters. */
  lemma SanitizedSuffixesEqualIffSameType(t: TypeSig, u: TypeSig)
    requires Registrable(t) && Registrable(u)
    ensures ToSuffixString(t).Some? && ToSuffixString(u).Some?
    ensures Lower(ToSuffixString(t).value) == Lower(ToSuffixString(u).value) <==> SuffixKey(t) == SuffixKey(u)
  {
    LowerSuffix(t);
    LowerSuffix(u);
    SuffixesEqualIffSameType(LowerLeaves(t), LowerLeaves(u));
  }
}
