/**
 * What the placeholder part of the custom format promises the parser: one tab-separated
 * slot per requested field, in order, and the same text from every variant's table for
 * the fields the tables share.
 */
module FormatFacts {
  import opened Wrappers
  import opened Text
  import opened Protocol

  /** The token of each requested field, in order. */
  function TokenSeq(fields: seq<string>, fmap: map<string, string>): (ts: seq<string>)
    ensures |ts| == |fields|
  {
    seq(|fields|, i requires 0 <= i < |fields| => Token(fields[i], fmap))
  }

  /** The placeholder part is a tab before each token. */
  lemma {:induction false} TokensAsJoin(fields: seq<string>, fmap: map<string, string>)
    ensures Tokens(fields, fmap) == Join([""] + TokenSeq(fields, fmap), Delimiter)
  {
    if fields != [] {
      var init := fields[..|fields| - 1];
      TokensAsJoin(init, fmap);
      var last := Token(fields[|fields| - 1], fmap);
      JoinSnoc([""] + TokenSeq(init, fmap), Delimiter, last);
      assert TokenSeq(fields, fmap) == TokenSeq(init, fmap) + [last] by {
        forall i | 0 <= i < |fields| ensures TokenSeq(fields, fmap)[i] == (TokenSeq(init, fmap) + [last])[i] {
          if i < |init| {
            assert init[i] == fields[i];
          }
        }
      }
      assert [""] + TokenSeq(init, fmap) + [last] == [""] + TokenSeq(fields, fmap);
    }
  }

  /** Requesting one more field appends a tab and its token. */
  lemma TokensSnoc(fields: seq<string>, f: string, fmap: map<string, string>)
    ensures Tokens(fields + [f], fmap) == Tokens(fields, fmap) + Delimiter + Token(f, fmap)
  {
    assert (fields + [f])[..|fields|] == fields;
  }

  /** The placeholder part of four known fields, written out. */
  lemma FourTokens(a: string, b: string, c: string, d: string, m: map<string, string>)
    requires a in m && b in m && c in m && d in m
    ensures Tokens([a, b, c, d], m) == Delimiter + m[a] + Delimiter + m[b] + Delimiter + m[c] + Delimiter + m[d]
  {
    TokensSnoc([], a, m);
    assert [] + [a] == [a];
    assert "" + Delimiter == Delimiter;
    assert Tokens([a], m) == Delimiter + m[a];
    TokensSnoc([a], b, m);
    assert [a] + [b] == [a, b];
    TokensSnoc([a, b], c, m);
    assert [a, b] + [c] == [a, b, c];
    TokensSnoc([a, b, c], d, m);
    assert [a, b, c] + [d] == [a, b, c, d];
  }

  /** The placeholder part of five known fields, written out. */
  lemma FiveTokens(a: string, b: string, c: string, d: string, e: string, m: map<string, string>)
    requires a in m && b in m && c in m && d in m && e in m
    ensures Tokens([a, b, c, d, e], m)
      == Delimiter + m[a] + Delimiter + m[b] + Delimiter + m[c] + Delimiter + m[d] + Delimiter + m[e]
  {
    FourTokens(a, b, c, d, m);
    TokensSnoc([a, b, c, d], e, m);
    assert [a, b, c, d] + [e] == [a, b, c, d, e];
  }

  /** The entries of the TypeScript variant's five default fields (src/index.ts:52-58). */
  lemma DefaultFieldEntries()
    ensures "abbrevHash" in LegacyFieldMap && LegacyFieldMap["abbrevHash"] == "%h"
    ensures "hash" in LegacyFieldMap && LegacyFieldMap["hash"] == "%H"
    ensures "subject" in LegacyFieldMap && LegacyFieldMap["subject"] == "%s"
    ensures "authorName" in LegacyFieldMap && LegacyFieldMap["authorName"] == "%an"
    ensures "authorDate" in LegacyFieldMap && LegacyFieldMap["authorDate"] == "%ai"
  {
  }

  /** No entry of the oldest table contains a tab. */
  lemma LegacyEntryTabFree(f: string)
    requires f in LegacyFieldMap
    ensures '\t' !in LegacyFieldMap[f]
  {
  }

  /** An entry of a union comes from the right operand when that has the name, else from the left. */
  lemma UnionEntry(m: map<string, string>, n: map<string, string>, f: string)
    requires f in m + n
    ensures f in n ==> (m + n)[f] == n[f]
    ensures f !in n ==> f in m && (m + n)[f] == m[f]
  {
  }

  /** No token the TypeScript table gives, nor the text `undefined`, contains a tab. */
  lemma TsTokensTabFree(f: string)
    ensures '\t' !in Token(f, TsFieldMap)
  {
    if f in TsFieldMap {
      UnionEntry(JsFieldMap, map["tag" := "%D"], f);
      if f != "tag" {
        UnionEntry(LegacyFieldMap, map["body" := "%b", "rawBody" := "%B"], f);
        if f in LegacyFieldMap {
          LegacyEntryTabFree(f);
        }
      }
    }
  }

  /** The JavaScript table's tokens are tab-free too, since it is part of the TypeScript one. */
  lemma JsTokensTabFree(f: string)
    ensures '\t' !in Token(f, JsFieldMap)
  {
    TsExtendsJs(f);
    TsTokensTabFree(f);
  }

  /**
   * The placeholder part cut at its tabs gives the empty text before the first tab and
   * then exactly one piece per requested field: the parser's slots line up with the fields.
   */
  lemma FormatSlots(fields: seq<string>, fmap: map<string, string>)
    requires forall i :: 0 <= i < |fields| ==> '\t' !in Token(fields[i], fmap)
    ensures Split(Tokens(fields, fmap), Delimiter) == [""] + TokenSeq(fields, fmap)
  {
    TokensAsJoin(fields, fmap);
    var parts := [""] + TokenSeq(fields, fmap);
    forall i | 0 <= i < |parts| ensures '\t' !in parts[i] {
      if i > 0 {
        assert parts[i] == Token(fields[i - 1], fmap);
      }
    }
    SplitJoinChar(parts, '\t');
  }

  /** The slots line up for every field list the TypeScript table formats. */
  lemma TsFormatSlots(fields: seq<string>)
    ensures Split(Tokens(fields, TsFieldMap), Delimiter) == [""] + TokenSeq(fields, TsFieldMap)
  {
    forall i | 0 <= i < |fields| ensures '\t' !in Token(fields[i], TsFieldMap) {
      TsTokensTabFree(fields[i]);
    }
    FormatSlots(fields, TsFieldMap);
  }

  /** The slots line up for every field list the JavaScript table formats. */
  lemma JsFormatSlots(fields: seq<string>)
    ensures Split(Tokens(fields, JsFieldMap), Delimiter) == [""] + TokenSeq(fields, JsFieldMap)
  {
    forall i | 0 <= i < |fields| ensures '\t' !in Token(fields[i], JsFieldMap) {
      JsTokensTabFree(fields[i]);
    }
    FormatSlots(fields, JsFieldMap);
  }

  /** Two tables that agree on every requested field, and lack the same ones, give the same placeholder part. */
  lemma {:induction false} TokensAgree(fields: seq<string>, m1: map<string, string>, m2: map<string, string>)
    requires forall i :: 0 <= i < |fields| ==> (fields[i] in m1 <==> fields[i] in m2)
    requires forall i :: 0 <= i < |fields| && fields[i] in m1 ==> m1[fields[i]] == m2[fields[i]]
    ensures Tokens(fields, m1) == Tokens(fields, m2)
  {
    if fields != [] {
      TokensAgree(fields[..|fields| - 1], m1, m2);
    }
  }

  /** Per name: the TypeScript table has every JavaScript entry and only `tag` besides. */
  lemma TsExtendsJs(f: string)
    ensures f in JsFieldMap ==> f in TsFieldMap && TsFieldMap[f] == JsFieldMap[f]
    ensures f !in JsFieldMap && f != "tag" ==> f !in TsFieldMap
  {
    assert "tag" !in LegacyFieldMap;
    if f in TsFieldMap {
      UnionEntry(JsFieldMap, map["tag" := "%D"], f);
    }
  }

  /** Per name: the JavaScript table has every entry of the oldest one. */
  lemma JsExtendsLegacy(f: string)
    ensures f in LegacyFieldMap ==> f in JsFieldMap && JsFieldMap[f] == LegacyFieldMap[f]
    ensures f in LegacyFieldMap ==> f in TsFieldMap && TsFieldMap[f] == LegacyFieldMap[f]
  {
    if f in LegacyFieldMap {
      assert "body" !in LegacyFieldMap && "rawBody" !in LegacyFieldMap;
      UnionEntry(LegacyFieldMap, map["body" := "%b", "rawBody" := "%B"], f);
      TsExtendsJs(f);
    }
  }

  lemma JsTsTokensAgree(fields: seq<string>)
    requires forall i :: 0 <= i < |fields| ==> fields[i] in JsFieldMap || fields[i] in NameStatusFields
    ensures Tokens(fields, JsFieldMap) == Tokens(fields, TsFieldMap)
  {
    forall i | 0 <= i < |fields|
      ensures (fields[i] in JsFieldMap <==> fields[i] in TsFieldMap)
      ensures fields[i] in JsFieldMap ==> JsFieldMap[fields[i]] == TsFieldMap[fields[i]]
    {
      TsExtendsJs(fields[i]);
    }
    TokensAgree(fields, JsFieldMap, TsFieldMap);
  }

  /** The JavaScript table accepts a list exactly when the TypeScript one does and it has no `tag`, and then formats it alike. */
  lemma JsTsFieldFormat(fields: seq<string>)
    ensures FieldFormat(fields, JsFieldMap, NameStatusFields).Ok?
      <==> FieldFormat(fields, TsFieldMap, NameStatusFields).Ok? && "tag" !in fields
    ensures FieldFormat(fields, JsFieldMap, NameStatusFields).Ok? ==>
      FieldFormat(fields, JsFieldMap, NameStatusFields).value == Tokens(fields, TsFieldMap)
  {
    forall i | 0 <= i < |fields| ensures Known(fields[i], JsFieldMap, NameStatusFields)
      <==> Known(fields[i], TsFieldMap, NameStatusFields) && fields[i] != "tag" {
      TsExtendsJs(fields[i]);
      assert "tag" !in NameStatusFields;
    }
    if AllKnown(fields, JsFieldMap, NameStatusFields) {
      JsTsTokensAgree(fields);
    }
    if "tag" in fields {
      var i :| 0 <= i < |fields| && fields[i] == "tag";
      assert !Known(fields[i], JsFieldMap, NameStatusFields);
    }
  }

  lemma LegacyTsTokensAgree(fields: seq<string>)
    requires forall i :: 0 <= i < |fields| ==> fields[i] in LegacyFieldMap
    ensures Tokens(fields, LegacyFieldMap) == Tokens(fields, TsFieldMap)
  {
    forall i | 0 <= i < |fields|
      ensures (fields[i] in LegacyFieldMap <==> fields[i] in TsFieldMap)
      ensures fields[i] in LegacyFieldMap ==> LegacyFieldMap[fields[i]] == TsFieldMap[fields[i]]
    {
      JsExtendsLegacy(fields[i]);
    }
    TokensAgree(fields, LegacyFieldMap, TsFieldMap);
  }

  /** Every name the builder accepts is non-empty, so the parser's `fields[index]` test is a bound test. */
  lemma KnownFieldsNamed(fields: seq<string>, fmap: map<string, string>)
    requires "" !in fmap
    requires AllKnown(fields, fmap, NameStatusFields)
    ensures Named(fields)
  {
  }

  /** No table has an entry for the empty name. */
  lemma TablesLackEmptyName()
    ensures "" !in TsFieldMap && "" !in JsFieldMap && "" !in LegacyFieldMap
  {
    assert "" !in LegacyFieldMap;
    assert "" !in JsFieldMap;
  }

  /** A field that is unknown, after only known ones, is the one the error names. */
  lemma {:induction false} FirstUnknownAt(fields: seq<string>, fmap: map<string, string>, reserved: set<string>, i: nat)
    requires i < |fields| && !Known(fields[i], fmap, reserved)
    requires forall j :: 0 <= j < i ==> Known(fields[j], fmap, reserved)
    ensures !AllKnown(fields, fmap, reserved) && FirstUnknown(fields, fmap, reserved) == i
  {
    if i > 0 {
      assert fields[1..][i - 1] == fields[i];
      FirstUnknownAt(fields[1..], fmap, reserved, i - 1);
    }
  }

  /**
   * The loop every variant runs over the requested fields: a tab and the token per field,
   * or the error for the first field that is neither in the table nor reserved.
   */
  method FieldLoop(fields: seq<string>, fmap: map<string, string>, reserved: set<string>) returns (r: Result<string>)
    ensures r == FieldFormat(fields, fmap, reserved)
  {
    var pretty := "";
    var i := 0;
    while i < |fields|
      invariant 0 <= i <= |fields|
      invariant pretty == Tokens(fields[..i], fmap)
      invariant forall j :: 0 <= j < i ==> Known(fields[j], fmap, reserved)
    {
      var field := fields[i];
      if field !in fmap && field !in reserved {
        FirstUnknownAt(fields, fmap, reserved, i);
        return Err("Unknown field: " + field);
      }
      assert fields[..i + 1][..i] == fields[..i];
      pretty := pretty + Delimiter + Token(field, fmap);
      i := i + 1;
    }
    assert fields[..i] == fields;
    assert AllKnown(fields, fmap, reserved);
    r := Ok(pretty);
  }
}
