/**
 * update_variant: a join of two tab-separated files on a column compared
 * without regard to case. Every line of the update file whose key column
 * equals the old line's key column copies the paired columns into the old line;
 * a line that was matched is written back joined by tabs, any other line as it
 * was read.
 */
module LineMerge {
  import opened PhpStrings

  const Tab: string := "\t"

  /** equals_ignore_case: the strings agree once both are lowercased. */
  function EqualsIgnoreCase(s: string, t: string): (r: bool)
    ensures r <==> |s| == |t| && forall i :: 0 <= i < |s| ==> LowerChar(s[i]) == LowerChar(t[i])
  {
    var ls, lt := Lower(s), Lower(t);
    assert |s| == |t| && (forall i :: 0 <= i < |s| ==> LowerChar(s[i]) == LowerChar(t[i])) ==> ls == lt;
    ls == lt
  }

  /** A string equals its upper- and its lower-cased form, ignoring case. */
  lemma EqualsIgnoreCaseOfCased(s: string)
    ensures EqualsIgnoreCase(Upper(s), s) && EqualsIgnoreCase(Lower(s), s)
  {
    forall i | 0 <= i < |s|
      ensures LowerChar(Upper(s)[i]) == LowerChar(s[i]) && LowerChar(Lower(s)[i]) == LowerChar(s[i])
    {
    }
  }

  /**
   * A PHP array built by explode and then assigned into: its entries in
   * insertion order, each with its integer key.
   */
  type Line = seq<(int, string)>

  /** The array explode("\t", s) returns: keys 0, 1, 2, ... */
  function Exploded(s: string): (l: Line)
    ensures |l| == |Explode(s, Tab)|
    ensures forall i :: 0 <= i < |l| ==> l[i] == (i, Explode(s, Tab)[i])
  {
    var parts := Explode(s, Tab);
    seq(|parts|, i requires 0 <= i < |parts| => (i, parts[i]))
  }

  /** The values of an array in order, as implode sees them. */
  function Values(l: Line): (vs: seq<string>)
    ensures |vs| == |l|
    ensures forall i :: 0 <= i < |l| ==> vs[i] == l[i].1
  {
    seq(|l|, i requires 0 <= i < |l| => l[i].1)
  }

  /** `$a[k]`: the value under key `k`; a missing key reads as NULL, i.e. "" in string context. */
  function Lookup(l: Line, k: int): string
    decreases |l|
  {
    if |l| == 0 then "" else if l[0].0 == k then l[0].1 else Lookup(l[1..], k)
  }

  predicate HasKey(l: Line, k: int) {
    exists i :: 0 <= i < |l| && l[i].0 == k
  }

  /** `$a[k] = v`: replaces the value of an existing key in place, otherwise appends the entry. */
  function Assign(l: Line, k: int, v: string): (r: Line)
    ensures Lookup(r, k) == v
    ensures forall k' :: k' != k ==> Lookup(r, k') == Lookup(l, k')
    ensures HasKey(l, k) ==> |r| == |l|
    ensures HasKey(l, k) ==> forall i :: 0 <= i < |l| ==> r[i].0 == l[i].0 && (l[i].0 != k ==> r[i] == l[i])
    ensures !HasKey(l, k) ==> r == l + [(k, v)]
    decreases |l|
  {
    if |l| == 0 then [(k, v)]
    else if l[0].0 == k then [(k, v)] + l[1..]
    else
      var r := [l[0]] + Assign(l[1..], k, v);
      assert HasKey(l, k) ==> HasKey(l[1..], k) by {
        if HasKey(l, k) {
          var i :| 0 <= i < |l| && l[i].0 == k;
          assert l[1..][i - 1].0 == k;
        }
      }
      assert !HasKey(l, k) ==> !HasKey(l[1..], k) by {
        if HasKey(l[1..], k) {
          var i :| 0 <= i < |l[1..]| && l[1..][i].0 == k;
          assert l[i + 1].0 == k;
        }
      }
      r
  }

  /** `$parts[k]` of an exploded update line: out of range reads as "". */
  function Field(parts: seq<string>, k: int): string {
    if 0 <= k < |parts| then parts[k] else ""
  }

  /** One replacement pair: the update line's column and the old line's column it is copied to. */
  datatype Pair = Pair(updateLoc: int, oldLoc: int)

  /** The join test against the old line as it stands (earlier matches may have changed it). */
  predicate Matches(l: Line, upd: seq<string>, mu: int, mo: int) {
    |l| > mo && |upd| > mu && EqualsIgnoreCase(Lookup(l, mo), Field(upd, mu))
  }

  /** The pairs applied in order to the old line. */
  function ApplyPairs(l: Line, upd: seq<string>, pairs: seq<Pair>): Line
    decreases |pairs|
  {
    if |pairs| == 0 then l
    else
      var p := pairs[|pairs| - 1];
      Assign(ApplyPairs(l, upd, pairs[..|pairs| - 1]), p.oldLoc, Field(upd, p.updateLoc))
  }

  /** The old line and the matched flag after the update lines have been tried in order. */
  function MergeLine(l: Line, updates: seq<string>, mu: int, mo: int, pairs: seq<Pair>): (Line, bool)
    decreases |updates|
  {
    if |updates| == 0 then (l, false)
    else
      var prev := MergeLine(l, updates[..|updates| - 1], mu, mo, pairs);
      var upd := Explode(updates[|updates| - 1], Tab);
      if Matches(prev.0, upd, mu, mo) then (ApplyPairs(prev.0, upd, pairs), true) else prev
  }

  /** The line written to the new file for one old line. */
  function MergedLine(oldLine: string, updates: seq<string>, mu: int, mo: int, pairs: seq<Pair>): string {
    var m := MergeLine(Exploded(oldLine), updates, mu, mo, pairs);
    if m.1 then Implode(Tab, Values(m.0)) else oldLine
  }

  /** The new file: one merged line per old line the fgets loop reads. */
  function MergeFile(oldLines: seq<string>, updates: seq<string>, mu: int, mo: int, pairs: seq<Pair>): (out: seq<string>)
    ensures |out| == |Readable(oldLines)|
  {
    var lines := Readable(oldLines);
    seq(|lines|, i requires 0 <= i < |lines| => MergedLine(lines[i], updates, mu, mo, pairs))
  }

  // ---------------------------------------------------------------------------
  // The loops of update_variant

  /** `foreach ($replacementPairs as $pair)` */
  method CopyPairs(l: Line, upd: seq<string>, pairs: seq<Pair>) returns (r: Line)
    ensures r == ApplyPairs(l, upd, pairs)
  {
    r := l;
    var k := 0;
    while k < |pairs|
      invariant 0 <= k <= |pairs|
      invariant r == ApplyPairs(l, upd, pairs[..k])
    {
      assert pairs[..k + 1][..k] == pairs[..k];
      r := Assign(r, pairs[k].oldLoc, Field(upd, pairs[k].updateLoc));
      k := k + 1;
    }
    assert pairs[..|pairs|] == pairs;
  }

  /** `foreach ($updateFileLines as $updateFileLine)` for one old line. */
  method MergeOne(oldLine: string, updates: seq<string>, mu: int, mo: int, pairs: seq<Pair>) returns (out: string)
    ensures out == MergedLine(oldLine, updates, mu, mo, pairs)
  {
    var cur := Exploded(oldLine);
    var updated := false;
    var updatedLine := "";
    var j := 0;
    while j < |updates|
      invariant 0 <= j <= |updates|
      invariant (cur, updated) == MergeLine(Exploded(oldLine), updates[..j], mu, mo, pairs)
      invariant updated ==> updatedLine == Implode(Tab, Values(cur))
    {
      assert updates[..j + 1][..j] == updates[..j];
      var upd := Explode(updates[j], Tab);
      if |cur| > mo && |upd| > mu {
        if EqualsIgnoreCase(Lookup(cur, mo), Field(upd, mu)) {
          cur := CopyPairs(cur, upd, pairs);
          updatedLine := Implode(Tab, Values(cur));
          updated := true;
        }
      }
      j := j + 1;
    }
    assert updates[..|updates|] == updates;
    if updated {
      out := updatedLine;
    } else {
      out := oldLine;
    }
  }

  /** update_variant: the lines of the new file. */
  method UpdateVariant(mu: int, mo: int, oldLines: seq<string>, updates: seq<string>, pairs: seq<Pair>)
    returns (newLines: seq<string>)
    ensures newLines == MergeFile(oldLines, updates, mu, mo, pairs)
  {
    newLines := [];
    var i := 0;
    while i < |oldLines| && Truthy(oldLines[i])
      invariant 0 <= i <= |Readable(oldLines)|
      invariant newLines == MergeFile(oldLines[..i], updates, mu, mo, pairs)
      invariant Readable(oldLines[..i]) == oldLines[..i]
    {
      assert i < |Readable(oldLines)|;
      var out := MergeOne(oldLines[i], updates, mu, mo, pairs);
      ReadablePrefix(oldLines, i + 1);
      TakeOneMore(oldLines, i);
      newLines := newLines + [out];
      i := i + 1;
    }
    ReadablePrefix(oldLines, i);
  }

  /** A prefix one longer is the prefix and the next element. */
  lemma TakeOneMore<T>(s: seq<T>, i: int)
    requires 0 <= i < |s|
    ensures s[..i + 1] == s[..i] + [s[i]]
  {
  }

  /** The fgets loop over a prefix of truthy lines reads that whole prefix. */
  lemma {:induction false} ReadablePrefix(lines: seq<string>, n: int)
    requires 0 <= n <= |Readable(lines)|
    ensures Readable(lines[..n]) == lines[..n]
    ensures n == |Readable(lines)| ==> Readable(lines) == lines[..n]
    decreases n
  {
    if n > 0 {
      ReadablePrefix(lines[1..], n - 1) by {
        assert Readable(lines) == [lines[0]] + Readable(lines[1..]);
      }
      assert lines[..n][1..] == lines[1..][..n - 1];
    }
  }

  // ---------------------------------------------------------------------------
  // Properties

  /** Explode then re-implode: the array of a line, joined again, is the line. */
  lemma ValuesOfExploded(s: string)
    ensures Values(Exploded(s)) == Explode(s, Tab)
    ensures Implode(Tab, Values(Exploded(s))) == s
  {
    ImplodeExplode(s, Tab);
  }

  /** Without matches the old line is kept and flagged unmatched. */
  lemma {:induction false} MergeLineUnmatched(l: Line, updates: seq<string>, mu: int, mo: int, pairs: seq<Pair>)
    requires forall j :: 0 <= j < |updates| ==> !Matches(l, Explode(updates[j], Tab), mu, mo)
    ensures MergeLine(l, updates, mu, mo, pairs) == (l, false)
    decreases |updates|
  {
    if |updates| > 0 {
      MergeLineUnmatched(l, updates[..|updates| - 1], mu, mo, pairs);
    }
  }

  /** An old line no update line matches is written back unchanged. */
  lemma UnmatchedLineUnchanged(oldLine: string, updates: seq<string>, mu: int, mo: int, pairs: seq<Pair>)
    requires forall j :: 0 <= j < |updates| ==> !Matches(Exploded(oldLine), Explode(updates[j], Tab), mu, mo)
    ensures MergedLine(oldLine, updates, mu, mo, pairs) == oldLine
  {
    MergeLineUnmatched(Exploded(oldLine), updates, mu, mo, pairs);
  }

  /** With no replacement pairs a matched line is rebuilt as it was, so every line is unchanged. */
  lemma {:induction false} NoPairsKeepLine(l: Line, updates: seq<string>, mu: int, mo: int)
    ensures MergeLine(l, updates, mu, mo, []).0 == l
    decreases |updates|
  {
    if |updates| > 0 {
      NoPairsKeepLine(l, updates[..|updates| - 1], mu, mo);
    }
  }

  lemma NoPairsIdentity(oldLines: seq<string>, updates: seq<string>, mu: int, mo: int)
    ensures MergeFile(oldLines, updates, mu, mo, []) == Readable(oldLines)
  {
    var lines := Readable(oldLines);
    forall i | 0 <= i < |lines|
      ensures MergedLine(lines[i], updates, mu, mo, []) == lines[i]
    {
      NoPairsKeepLine(Exploded(lines[i]), updates, mu, mo);
      ValuesOfExploded(lines[i]);
    }
  }

  /** No pair writes column `k`. */
  predicate Unwritten(pairs: seq<Pair>, k: int) {
    forall i :: 0 <= i < |pairs| ==> pairs[i].oldLoc != k
  }

  /** Pair `i` is the last one writing its column. */
  predicate LastWriter(pairs: seq<Pair>, i: int)
    requires 0 <= i < |pairs|
  {
    forall j :: i < j < |pairs| ==> pairs[j].oldLoc != pairs[i].oldLoc
  }

  /** A column no pair writes keeps its value. */
  lemma {:induction false} ApplyPairsUnwritten(l: Line, upd: seq<string>, pairs: seq<Pair>, k: int)
    requires Unwritten(pairs, k)
    ensures Lookup(ApplyPairs(l, upd, pairs), k) == Lookup(l, k)
    decreases |pairs|
  {
    if |pairs| > 0 {
      var n := |pairs| - 1;
      assert Unwritten(pairs[..n], k) by {
        forall i | 0 <= i < n ensures pairs[..n][i].oldLoc != k {
          assert pairs[..n][i] == pairs[i];
        }
      }
      ApplyPairsUnwritten(l, upd, pairs[..n], k);
    }
  }

  /** The last writer of a column among all pairs is still its last writer once the final pair is dropped. */
  lemma LastWriterPrefix(pairs: seq<Pair>, i: int)
    requires 0 <= i < |pairs| - 1 && LastWriter(pairs, i)
    ensures LastWriter(pairs[..|pairs| - 1], i) && pairs[..|pairs| - 1][i] == pairs[i]
  {
    var p := pairs[..|pairs| - 1];
    forall j | i < j < |p| ensures p[j].oldLoc != p[i].oldLoc {
      assert p[j] == pairs[j];
    }
  }

  /** A column written by a pair holds the update line's value from the last pair writing it. */
  lemma {:induction false} ApplyPairsLastWriter(l: Line, upd: seq<string>, pairs: seq<Pair>, i: int)
    requires 0 <= i < |pairs| && LastWriter(pairs, i)
    ensures Lookup(ApplyPairs(l, upd, pairs), pairs[i].oldLoc) == Field(upd, pairs[i].updateLoc)
    decreases |pairs|
  {
    var n := |pairs| - 1;
    if i < n {
      assert pairs[n].oldLoc != pairs[i].oldLoc;
      LastWriterPrefix(pairs, i);
      ApplyPairsLastWriter(l, upd, pairs[..n], i);
    }
  }

  /**
   * A line matched by a single update line carries the update's value in every
   * column a pair writes (the last pair for that column winning).
   */
  lemma SingleMatchCopies(oldLine: string, update: string, mu: int, mo: int, pairs: seq<Pair>, i: int)
    requires Matches(Exploded(oldLine), Explode(update, Tab), mu, mo)
    requires 0 <= i < |pairs| && LastWriter(pairs, i)
    ensures MergeLine(Exploded(oldLine), [update], mu, mo, pairs).1
    ensures Lookup(MergeLine(Exploded(oldLine), [update], mu, mo, pairs).0, pairs[i].oldLoc)
      == Field(Explode(update, Tab), pairs[i].updateLoc)
  {
    assert [update][..0] == [];
    ApplyPairsLastWriter(Exploded(oldLine), Explode(update, Tab), pairs, i);
  }
}
