/**
 * The dbSNP lookup of get_dbsnp_id: the HTTP request is left out, the response
 * text is a parameter, and the model is the scan of its whitespace-separated
 * tokens for `SNP_ID=`.
 */
module DbSnp {
  import opened Wrappers
  import opened PhpStrings

  /** The characters `\s` matches in a PCRE pattern: space, \t, \n, \v, \f and \r. */
  predicate IsSpace(c: char) {
    c == ' ' || c == '\t' || c == '\n' || c as int == 11 || c as int == 12 || c == '\r'
  }

  predicate NoSpace(s: string) {
    forall j :: 0 <= j < |s| ==> !IsSpace(s[j])
  }

  /** Drops a leading run of whitespace. */
  function SkipSpace(s: string): (r: string)
    ensures |r| <= |s| && r == s[|s| - |r|..]
    ensures |r| > 0 ==> !IsSpace(r[0])
    ensures |s| > 0 && IsSpace(s[0]) ==> |r| < |s|
    decreases |s|
  {
    if |s| > 0 && IsSpace(s[0]) then SkipSpace(s[1..]) else s
  }

  /** preg_split('/\s+/', s): the pieces between runs of whitespace, empty ones at the ends included. */
  function Tokens(s: string): (r: seq<string>)
    ensures |r| >= 1
    ensures forall i :: 0 <= i < |r| ==> NoSpace(r[i])
    decreases |s|
  {
    if |s| == 0 then [""]
    else if IsSpace(s[0]) then [""] + Tokens(SkipSpace(s))
    else
      var rest := Tokens(s[1..]);
      [[s[0]] + rest[0]] + rest[1..]
  }

  lemma {:induction false} TokensPrefix(p: string, rest: string)
    requires NoSpace(p)
    ensures Tokens(p + rest) == [p + Tokens(rest)[0]] + Tokens(rest)[1..]
    decreases |p|
  {
    var t := Tokens(rest);
    if |p| == 0 {
      assert p + rest == rest;
      assert p + t[0] == t[0];
      assert [t[0]] + t[1..] == t;
    } else {
      assert (p + rest)[1..] == p[1..] + rest;
      TokensPrefix(p[1..], rest);
      var r := Tokens(p[1..] + rest);
      assert r[0] == p[1..] + t[0];
      assert r[1..] == t[1..];
      assert (p + rest)[0] == p[0] && !IsSpace(p[0]);
      assert Tokens(p + rest) == [[p[0]] + r[0]] + r[1..];
      assert [p[0]] + (p[1..] + t[0]) == p + t[0];
    }
  }

  /** Words joined by spaces start with the first letter of the first word. */
  lemma ImplodeHead(words: seq<string>)
    requires |words| >= 1 && |words[0]| > 0
    ensures |Implode(" ", words)| > 0 && Implode(" ", words)[0] == words[0][0]
  {
    if |words| > 1 {
      assert Implode(" ", words) == words[0] + " " + Implode(" ", words[1..]);
    }
  }

  /** Tokenising words joined by single spaces gives the words back. */
  lemma {:induction false} TokensOfSpaced(words: seq<string>)
    requires |words| >= 1
    requires forall i :: 0 <= i < |words| ==> |words[i]| > 0 && NoSpace(words[i])
    ensures Tokens(Implode(" ", words)) == words
    decreases |words|
  {
    if |words| == 1 {
      TokensPrefix(words[0], "");
      assert words[0] + "" == words[0];
    } else {
      var rest := words[1..];
      var tail := Implode(" ", rest);
      TokensOfSpaced(rest);
      assert rest[0] == words[1];
      ImplodeHead(rest);
      TokensAfterSpace(tail);
      TokensPrefix(words[0], " " + tail);
      JoinFirst(words);
      ConsTail(words);
      assert words[0] + "" == words[0];
    }
  }

  /** Words joined by spaces: the first word, a space, then the others joined. */
  lemma JoinFirst(words: seq<string>)
    requires |words| >= 2
    ensures Implode(" ", words) == words[0] + (" " + Implode(" ", words[1..]))
  {
    var rest := Implode(" ", words[1..]);
    assert Implode(" ", words) == words[0] + " " + rest;
    assert words[0] + " " + rest == words[0] + (" " + rest);
  }

  lemma ConsTail<T>(s: seq<T>)
    requires |s| >= 1
    ensures [s[0]] + s[1..] == s
  {
  }

  /** One space before a token that starts at once adds an empty first token. */
  lemma TokensAfterSpace(tail: string)
    requires |tail| > 0 && !IsSpace(tail[0])
    ensures Tokens(" " + tail) == [""] + Tokens(tail)
  {
    assert SkipSpace(tail) == tail;
    assert (" " + tail)[1..] == tail;
  }

  const Marker: string := "SNP_ID="

  /** A token holding `SNP_ID=` yields 'rs' followed by what follows the marker's first occurrence. */
  function Candidate(token: string): (r: Option<string>)
    ensures r.Some? <==> Contains(token, Marker)
    ensures r.Some? ==> |r.value| >= 2 && r.value[..2] == "rs"
  {
    match IndexOf(token, Marker)
    case None => None
    case Some(i) => Some("rs" + token[i + |Marker|..])
  }

  /** The list the scan builds: each candidate once, in order of first appearance. */
  function Collected(tokens: seq<string>): (ids: seq<string>)
    decreases |tokens|
  {
    if |tokens| == 0 then []
    else
      var ids := Collected(tokens[..|tokens| - 1]);
      match Candidate(tokens[|tokens| - 1])
      case None => ids
      case Some(id) => if id in ids then ids else ids + [id]
  }

  /** All ids the response mentions. */
  ghost function CandidateSet(tokens: seq<string>): set<string> {
    set i | 0 <= i < |tokens| && Candidate(tokens[i]).Some? :: Candidate(tokens[i]).value
  }

  predicate Distinct(ids: seq<string>) {
    forall i, j :: 0 <= i < j < |ids| ==> ids[i] != ids[j]
  }

  /** get_dbsnp_id's answer: the id when exactly one was collected (trimmed), otherwise NULL. */
  function DbSnpIdOf(tokens: seq<string>): Option<string> {
    var ids := Collected(tokens);
    if |ids| == 1 then Some(Trim(ids[0])) else None
  }

  /** The scan collects every mentioned id exactly once. */
  lemma {:induction false} CollectedIsCandidateSet(tokens: seq<string>)
    ensures Distinct(Collected(tokens))
    ensures (set id | id in Collected(tokens)) == CandidateSet(tokens)
    decreases |tokens|
  {
    if |tokens| > 0 {
      var n := |tokens| - 1;
      var init := tokens[..n];
      CollectedIsCandidateSet(init);
      assert forall i :: 0 <= i < n ==> init[i] == tokens[i];
      assert CandidateSet(tokens) == CandidateSet(init) +
        (if Candidate(tokens[n]).Some? then {Candidate(tokens[n]).value} else {});
    }
  }

  lemma {:induction false} DistinctCard(ids: seq<string>)
    requires Distinct(ids)
    ensures |set id | id in ids| == |ids|
    decreases |ids|
  {
    if |ids| > 0 {
      var n := |ids| - 1;
      DistinctCard(ids[..n]);
      assert (set id | id in ids) == (set id | id in ids[..n]) + {ids[n]};
      assert ids[n] !in ids[..n];
    }
  }

  lemma {:induction false} TrimRightKeeps(s: string, k: int)
    requires 0 < k <= |s| && !IsTrimChar(s[k - 1])
    ensures |TrimRight(s)| >= k
    decreases |s|
  {
    if IsTrimChar(s[|s| - 1]) {
      TrimRightKeeps(s[..|s| - 1], k);
    }
  }

  lemma TrimKeepsRs(s: string)
    requires |s| >= 2 && s[..2] == "rs"
    ensures |Trim(s)| >= 2 && Trim(s)[..2] == "rs"
  {
    assert s[0] == 'r' && s[1] == 's';
    assert TrimLeft(s) == s;
    TrimRightKeeps(s, 2);
    var r := TrimRight(s);
    assert r == s[..|r|];
    assert r[..2] == s[..2];
  }

  /**
   * An id is returned exactly when the response mentions one distinct id; it is
   * that id, trimmed, and still begins with "rs".
   */
  lemma DbSnpIdUnique(tokens: seq<string>)
    ensures DbSnpIdOf(tokens).Some? <==> |CandidateSet(tokens)| == 1
    ensures DbSnpIdOf(tokens).Some? ==>
      exists id :: CandidateSet(tokens) == {id} && DbSnpIdOf(tokens).value == Trim(id)
  {
    CollectedIsCandidateSet(tokens);
    DistinctCard(Collected(tokens));
    var ids := Collected(tokens);
    if |ids| == 1 {
      assert (set id | id in ids) == {ids[0]};
    }
  }

  /** get_dbsnp_id over the response text. */
  method GetDbsnpId(html: string) returns (r: Option<string>)
    ensures r == DbSnpIdOf(Tokens(html))
    ensures r.Some? ==> |r.value| >= 2 && r.value[..2] == "rs"
  {
    var lines := Tokens(html);
    var ids: seq<string> := [];
    var i := 0;
    while i < |lines|
      invariant 0 <= i <= |lines|
      invariant ids == Collected(lines[..i])
      invariant forall k :: 0 <= k < |ids| ==> |ids[k]| >= 2 && ids[k][..2] == "rs"
    {
      assert lines[..i + 1][..i] == lines[..i];
      var c := Candidate(lines[i]);
      if c.Some? && c.value !in ids {
        ids := ids + [c.value];
      }
      i := i + 1;
    }
    assert lines[..|lines|] == lines;
    if |ids| == 1 {
      TrimKeepsRs(ids[0]);
      r := Some(Trim(ids[0]));
    } else {
      r := None;
    }
  }
}
