/** strtok_r: a text taken apart at a delimiter. */
module Tokens {
  import opened Bytes
  import opened Options

  /** Where a run of delimiters from `i` ends. */
  function DelimitersEnd(s: bytes, i: nat, delim: byte): (e: nat)
    requires i <= |s|
    ensures i <= e <= |s| && (e < |s| ==> s[e] != delim)
    decreases |s| - i
  {
    if i < |s| && s[i] == delim then DelimitersEnd(s, i + 1, delim) else i
  }

  /** Where the token at `i` ends. */
  function TokenEnd(s: bytes, i: nat, delim: byte): (e: nat)
    requires i <= |s|
    ensures i <= e <= |s| && (e < |s| ==> s[e] == delim) && delim !in s[i..e]
    ensures i < |s| && s[i] != delim ==> i < e
    decreases |s| - i
  {
    if i < |s| && s[i] != delim then
      var e := TokenEnd(s, i + 1, delim);
      assert s[i..e] == [s[i]] + s[i + 1..e];
      e
    else i
  }

  /** The next token from `from` on, never empty, and where the one after it is looked for. */
  function StrTok(s: bytes, from: nat, delim: byte): (r: Option<(bytes, nat)>)
    requires from <= |s|
    ensures r.Some? ==> from < r.value.1 <= |s| && |r.value.0| > 0 && delim !in r.value.0
  {
    var i := DelimitersEnd(s, from, delim);
    if i == |s| then None
    else
      var e := TokenEnd(s, i, delim);
      Some((s[i..e], if e < |s| then e + 1 else e))
  }

  /** All the tokens from `from` on. */
  function AllTokens(s: bytes, from: nat, delim: byte): (r: seq<bytes>)
    requires from <= |s|
    ensures forall i :: 0 <= i < |r| ==> |r[i]| > 0 && delim !in r[i]
    decreases |s| - from
  {
    match StrTok(s, from, delim)
    case None => []
    case Some((token, next)) => [token] + AllTokens(s, next, delim)
  }

  lemma {:induction false} TokenRuns(s: bytes, i: nat, e: nat, delim: byte)
    requires i <= e <= |s| && delim !in s[i..e] && (e < |s| ==> s[e] == delim)
    ensures TokenEnd(s, i, delim) == e
    decreases e - i
  {
    if i < e {
      assert s[i] in s[i..e];
      assert s[i..e] == [s[i]] + s[i + 1..e];
      TokenRuns(s, i + 1, e, delim);
    }
  }
}
