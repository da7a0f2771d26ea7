/**
  The identifier grammar: one or more characters, each alphanumeric or an
  underscore. Character classes follow the "C" locale.
 */
module Identifier {
  import opened Wrappers
  import opened ParseCore

  predicate IsAlnum(c: char) {
    ('a' <= c <= 'z') || ('A' <= c <= 'Z') || ('0' <= c <= '9')
  }

  predicate IsUnderscore(c: char) {
    c == '_'
  }

  /** A character an identifier may contain. */
  predicate IsIdentChar(c: char) {
    IsAlnum(c) || IsUnderscore(c)
  }

  /** `alnum | chr{'_'}`. */
  function IdentChar(): Parser<char> {
    Alt(Chr(IsAlnum), Chr(IsUnderscore))
  }

  /** One or more of `alnum | chr{'_'}` is one or more of the union class. */
  lemma IdentCharIsClass(s: string)
    ensures Consumes(IdentChar()) && Consumes(Chr(IsIdentChar))
    ensures Plus(IdentChar(), s) == Plus(Chr(IsIdentChar), s)
    ensures Plus(IdentChar(), s).Some? <==> |s| > 0 && IsIdentChar(s[0])
    ensures Plus(IdentChar(), s).Some? ==>
      Plus(IdentChar(), s).value == (s[..RunLength(IsIdentChar, s)], s[RunLength(IsIdentChar, s)..])
  {
    AltClass(IsAlnum, IsUnderscore, IsIdentChar);
    PlusClass(IsIdentChar, s);
    PlusAgree(IdentChar(), Chr(IsIdentChar), s);
  }

  /** `+(alnum | chr{'_'})`: fails on empty input and on a first character
      outside the class; otherwise consumes the longest run of identifier
      characters, which is its attribute, and stops at the first other
      character or the end of the input. */
  function Parse(s: string): (r: Option<(string, string)>)
    ensures r.Some? <==> |s| > 0 && IsIdentChar(s[0])
    ensures r.Some? ==> |r.value.0| >= 1 && r.value.0 + r.value.1 == s
    ensures r.Some? ==> forall i :: 0 <= i < |r.value.0| ==> IsIdentChar(r.value.0[i])
    ensures r.Some? ==> r.value.1 == [] || !IsIdentChar(r.value.1[0])
  {
    IdentCharIsClass(s);
    RunLengthMaximal(IsIdentChar, s);
    assert s[..RunLength(IsIdentChar, s)] + s[RunLength(IsIdentChar, s)..] == s;
    Plus(IdentChar(), s)
  }

  /** Maximal munch, the other way round: an identifier followed by a
      character that cannot continue it, or by nothing, parses to exactly
      that identifier. */
  lemma {:induction false} ParseSplits(id: string, rest: string)
    requires |id| >= 1 && forall i :: 0 <= i < |id| ==> IsIdentChar(id[i])
    requires rest == [] || !IsIdentChar(rest[0])
    ensures Parse(id + rest) == Some((id, rest))
  {
    var s := id + rest;
    IdentCharIsClass(s);
    RunLengthOf(IsIdentChar, id, rest);
    assert s[0] == id[0];
    assert s[..|id|] == id && s[|id|..] == rest;
  }

  /** Examples: the run stops at the first other character. */
  lemma Examples()
    ensures Parse("foo_1 bar") == Some(("foo_1", " bar"))
    ensures Parse("_") == Some(("_", ""))
    ensures Parse("") == None
    ensures Parse("-x") == None
  {
    ParseSplits("foo_1", " bar");
    assert "foo_1" + " bar" == "foo_1 bar";
    ParseSplits("_", "");
    assert "_" + "" == "_";
  }
}
