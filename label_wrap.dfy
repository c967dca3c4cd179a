/** The label word-wrap: `name.trim().split(/(?=[A-Z][^A-Z:\s\-\.])/g)`
    (app.js:91, app.js:114). The pattern is a lookahead, so it matches the
    empty string in front of a word start and the split consumes nothing. */
module LabelWrap {

  /** The characters `\s` matches and `trim` removes: the ECMAScript
      WhiteSpace and LineTerminator code points. */
  predicate IsSpace(c: char) {
    c == '\t' || c == '\n' || c == '\U{000B}' || c == '\U{000C}' || c == '\r' ||
    c == ' ' || c == '\U{00A0}' || c == '\U{1680}' ||
    ('\U{2000}' <= c <= '\U{200A}') ||
    c == '\U{2028}' || c == '\U{2029}' || c == '\U{202F}' || c == '\U{205F}' ||
    c == '\U{3000}' || c == '\U{FEFF}'
  }

  /** `[A-Z]`: ASCII upper-case letters only. */
  predicate IsUpper(c: char) {
    'A' <= c <= 'Z'
  }

  /** The characters the class `[^A-Z:\s\-\.]` refuses. */
  predicate IsStop(c: char) {
    IsUpper(c) || c == ':' || IsSpace(c) || c == '-' || c == '.'
  }

  /** `t` begins with what the lookahead looks for: an upper-case letter
      followed by a character outside the refused class. */
  predicate StartsWord(t: string) {
    |t| >= 2 && IsUpper(t[0]) && !IsStop(t[1])
  }

  /** The pattern matches (with an empty match) at position `q` of `s`. */
  predicate BoundaryAt(s: string, q: nat)
    requires q <= |s|
  {
    StartsWord(s[q..])
  }

  /** `s` with its leading white space removed. */
  function TrimStart(s: string): (r: string)
    ensures |r| <= |s| && r == s[|s| - |r|..]
    ensures forall k :: 0 <= k < |s| - |r| ==> IsSpace(s[k])
    ensures r == [] || !IsSpace(r[0])
  {
    if |s| > 0 && IsSpace(s[0]) then
      var r := TrimStart(s[1..]);
      assert s[1..][|s| - 1 - |r|..] == s[|s| - |r|..];
      assert forall k :: 0 <= k < |s| - 1 - |r| ==> s[1..][k] == s[k + 1];
      r
    else s
  }

  /** `s` with its trailing white space removed. */
  function TrimEnd(s: string): (r: string)
    ensures |r| <= |s| && r == s[..|r|]
    ensures forall k :: |r| <= k < |s| ==> IsSpace(s[k])
    ensures r == [] || !IsSpace(r[|r| - 1])
  {
    if |s| > 0 && IsSpace(s[|s| - 1]) then TrimEnd(s[..|s| - 1]) else s
  }

  /** `String.prototype.trim`. */
  function Trim(s: string): (r: string)
    ensures |r| <= |s|
    ensures r == [] || (!IsSpace(r[0]) && !IsSpace(r[|r| - 1]))
  {
    var t := TrimStart(s);
    var r := TrimEnd(t);
    assert r == [] || r[0] == t[0];
    r
  }

  /** How much white space `trim` cuts from the front. */
  function LeadingSpace(s: string): nat {
    |s| - |TrimStart(s)|
  }

  /** Trim cuts white space only, at both ends, and keeps the middle. */
  lemma TrimIsInfix(s: string)
    ensures LeadingSpace(s) + |Trim(s)| <= |s|
    ensures Trim(s) == s[LeadingSpace(s)..LeadingSpace(s) + |Trim(s)|]
    ensures forall k :: 0 <= k < LeadingSpace(s) ==> IsSpace(s[k])
    ensures forall k :: LeadingSpace(s) + |Trim(s)| <= k < |s| ==> IsSpace(s[k])
  {
    var t := TrimStart(s);
    var lead := |s| - |t|;
    var r := TrimEnd(t);
    assert LeadingSpace(s) == lead && Trim(s) == r;
    PrefixOfSuffix(s, lead, t, r);
    TrailingSpace(s, lead, t, r);
  }

  lemma PrefixOfSuffix(s: string, lead: nat, t: string, r: string)
    requires lead <= |s| && t == s[lead..] && |r| <= |t| && r == t[..|r|]
    ensures r == s[lead..lead + |r|]
  {
  }

  /** What `TrimEnd` cut from the trimmed tail sits at the end of `s`. */
  lemma TrailingSpace(s: string, lead: nat, t: string, r: string)
    requires lead <= |s| && t == s[lead..] && |r| <= |t|
    requires forall k :: |r| <= k < |t| ==> IsSpace(t[k])
    ensures forall k :: lead + |r| <= k < |s| ==> IsSpace(s[k])
  {
    forall k | lead + |r| <= k < |s| ensures IsSpace(s[k]) {
      assert s[k] == t[k - lead];
    }
  }

  /** A string with no white space at either end is its own trim. */
  lemma TrimOfUnpadded(s: string)
    requires s == [] || (!IsSpace(s[0]) && !IsSpace(s[|s| - 1]))
    ensures Trim(s) == s
  {
  }

  lemma TrimIdempotent(s: string)
    ensures Trim(Trim(s)) == Trim(s)
  {
    var r := Trim(s);
    assert TrimStart(r) == r;
    assert TrimEnd(r) == r;
  }

  /** The concatenation of a list of pieces. */
  function Concat(ts: seq<string>): string {
    if |ts| == 0 then [] else ts[0] + Concat(ts[1..])
  }

  /** The loop of the language's split with a regular expression separator:
      `p` is where the current piece began, `q` the position being tried.
      An empty match at `q` ends a piece only when `q != p`; after a cut,
      the search resumes at the cut, where the same match is then skipped. */
  function SplitFrom(s: string, p: nat, q: nat): (ts: seq<string>)
    requires p <= q <= |s|
    ensures |ts| >= 1
    decreases |s| - q, q - p
  {
    if q == |s| then [s[p..]]
    else if BoundaryAt(s, q) && q != p then [s[p..q]] + SplitFrom(s, q, q)
    else SplitFrom(s, p, q + 1)
  }

  /** `s.split(wordWrapRegex)`. The empty string gives `[""]`, since the
      pattern cannot match an empty string. */
  function Split(s: string): seq<string> {
    SplitFrom(s, 0, 0)
  }

  /** The lines of a label: `name.trim().split(wordWrapRegex)`. */
  function WordWrap(name: string): seq<string> {
    Split(Trim(name))
  }

  lemma {:induction false} SplitFromReassembles(s: string, p: nat, q: nat)
    requires p <= q <= |s|
    ensures |SplitFrom(s, p, q)| >= 1
    ensures Concat(SplitFrom(s, p, q)) == s[p..]
    decreases |s| - q, q - p
  {
    if q == |s| {
    } else if BoundaryAt(s, q) && q != p {
      SplitFromReassembles(s, q, q);
      assert s[p..] == s[p..q] + s[q..];
    } else {
      SplitFromReassembles(s, p, q + 1);
    }
  }

  lemma {:induction false} SplitFromNonEmpty(s: string, p: nat, q: nat)
    requires p <= q <= |s| && p < |s|
    ensures forall k :: 0 <= k < |SplitFrom(s, p, q)| ==> SplitFrom(s, p, q)[k] != []
    decreases |s| - q, q - p
  {
    if q == |s| {
    } else if BoundaryAt(s, q) && q != p {
      SplitFromNonEmpty(s, q, q);
    } else {
      SplitFromNonEmpty(s, p, q + 1);
    }
  }

  lemma {:induction false} SplitFromWordStarts(s: string, p: nat, q: nat)
    requires p <= q <= |s|
    ensures BoundaryAt(s, p) ==> StartsWord(SplitFrom(s, p, q)[0])
    ensures forall k :: 0 < k < |SplitFrom(s, p, q)| ==> StartsWord(SplitFrom(s, p, q)[k])
    decreases |s| - q, q - p
  {
    SplitFromReassembles(s, p, q);
    if q == |s| {
    } else if BoundaryAt(s, q) && q != p {
      SplitFromWordStarts(s, q, q);
      var ts, rest := SplitFrom(s, p, q), SplitFrom(s, q, q);
      forall k | 0 < k < |ts| ensures StartsWord(ts[k]) {
        assert ts[k] == rest[k - 1];
      }
      if BoundaryAt(s, p) {
        // s[p + 1] is not upper case, so the cut is at least two further on.
        assert IsUpper(s[q..][0]) && !IsStop(s[p..][1]);
        assert s[q..][0] == s[q] && s[p..][1] == s[p + 1];
        assert s[p..q][..2] == s[p..][..2];
      }
    } else {
      SplitFromWordStarts(s, p, q + 1);
      assert SplitFrom(s, p, q) == SplitFrom(s, p, q + 1);
    }
  }

  lemma {:induction false} SplitFromMaximal(s: string, p: nat, q: nat)
    requires p <= q <= |s|
    requires forall r :: p < r < q ==> !BoundaryAt(s, r)
    ensures forall k, i :: 0 <= k < |SplitFrom(s, p, q)| && 0 < i < |SplitFrom(s, p, q)[k]| ==>
      !StartsWord(SplitFrom(s, p, q)[k][i..])
    decreases |s| - q, q - p
  {
    var ts := SplitFrom(s, p, q);
    if q == |s| {
      forall i | 0 < i < |ts[0]| ensures !StartsWord(ts[0][i..]) {
        assert ts[0][i..] == s[p + i..];
        assert !BoundaryAt(s, p + i);
      }
    } else if BoundaryAt(s, q) && q != p {
      SplitFromMaximal(s, q, q);
      forall k, i | 0 <= k < |ts| && 0 < i < |ts[k]| ensures !StartsWord(ts[k][i..]) {
        if k == 0 {
          assert ts[0][i..] == s[p + i..q];
          if StartsWord(s[p + i..q]) {
            assert s[p + i..q][..2] == s[p + i..][..2];
            assert BoundaryAt(s, p + i);
          }
        } else {
          assert ts[k] == SplitFrom(s, q, q)[k - 1];
        }
      }
    } else {
      SplitFromMaximal(s, p, q + 1);
      assert SplitFrom(s, p, q) == SplitFrom(s, p, q + 1);
    }
  }

  /** The tokens concatenate back to the trimmed name: nothing is consumed. */
  lemma WordWrapReassembles(name: string)
    ensures |WordWrap(name)| >= 1
    ensures Concat(WordWrap(name)) == Trim(name)
  {
    SplitFromReassembles(Trim(name), 0, 0);
  }

  /** A name that is not blank gives non-empty tokens only; a blank name
      gives the single empty token. */
  lemma WordWrapNonEmpty(name: string)
    ensures Trim(name) != [] ==> forall k :: 0 <= k < |WordWrap(name)| ==> WordWrap(name)[k] != []
    ensures Trim(name) == [] ==> WordWrap(name) == [""]
  {
    if Trim(name) != [] {
      SplitFromNonEmpty(Trim(name), 0, 0);
    }
  }

  /** Every token after the first begins where the pattern matches: an
      upper-case letter followed by a character outside the refused class. */
  lemma WordWrapWordStarts(name: string)
    ensures forall k :: 0 < k < |WordWrap(name)| ==> StartsWord(WordWrap(name)[k])
  {
    SplitFromWordStarts(Trim(name), 0, 0);
    assert WordWrap(name) == SplitFrom(Trim(name), 0, 0);
  }

  /** The split is maximal: no position inside a token but its start is one
      where the pattern would match. */
  lemma WordWrapMaximal(name: string)
    ensures var ts := WordWrap(name);
      forall k, i :: 0 <= k < |ts| && 0 < i < |ts[k]| ==> !StartsWord(ts[k][i..])
  {
    SplitFromMaximal(Trim(name), 0, 0);
    assert WordWrap(name) == SplitFrom(Trim(name), 0, 0);
  }

  lemma {:induction false} SplitFromWhole(s: string, q: nat)
    requires q <= |s|
    requires forall r :: 0 < r < |s| ==> !BoundaryAt(s, r)
    ensures SplitFrom(s, 0, q) == [s]
    decreases |s| - q
  {
    if q < |s| {
      SplitFromWhole(s, q + 1);
    }
  }

  /** A name is drawn on one line exactly when no position after its first
      character is a word start. */
  lemma WordWrapSingleLine(name: string)
    ensures WordWrap(name) == [Trim(name)] <==>
      forall q :: 0 < q < |Trim(name)| ==> !BoundaryAt(Trim(name), q)
  {
    var s := Trim(name);
    if WordWrap(name) == [s] {
      WordWrapMaximal(name);
      forall q | 0 < q < |s| ensures !BoundaryAt(s, q) {
        assert WordWrap(name)[0][q..] == s[q..];
      }
    }
    if forall q :: 0 < q < |s| ==> !BoundaryAt(s, q) {
      SplitFromWhole(s, 0);
    }
  }

  /** Scanning past positions that are not word starts (other than the
      start of the current piece) does not change the outcome. */
  lemma {:induction false} SplitFromSkip(s: string, p: nat, q: nat, e: nat)
    requires p <= q <= e <= |s|
    requires forall r :: q <= r < e && r != p ==> !BoundaryAt(s, r)
    ensures SplitFrom(s, p, q) == SplitFrom(s, p, e)
    decreases e - q
  {
    if q < e {
      SplitFromSkip(s, p, q + 1, e);
    }
  }

  /** No ASCII capital anywhere in `t`. */
  predicate Uncapitalised(t: string) {
    |t| == 0 || (!IsUpper(t[0]) && Uncapitalised(t[1..]))
  }

  lemma {:induction false} UncapitalisedAt(t: string, i: nat)
    requires Uncapitalised(t) && i < |t|
    ensures !IsUpper(t[i])
  {
    if i > 0 {
      UncapitalisedAt(t[1..], i - 1);
    }
  }

  /** In such a pair the only word start after position 0 is the second
      word's capital. */
  lemma CamelPairStarts(u: string, w: string)
    requires |u| >= 1 && Uncapitalised(u[1..])
    requires |w| >= 2 && IsUpper(w[0]) && !IsStop(w[1]) && Uncapitalised(w[1..])
    ensures BoundaryAt(u + w, |u|)
    ensures forall r :: 0 < r < |u + w| && r != |u| ==> !BoundaryAt(u + w, r)
  {
    var s, n := u + w, |u|;
    assert s[n..] == w;
    forall r | 0 < r < |s| && r != n ensures !BoundaryAt(s, r) {
      if r < n {
        UncapitalisedAt(u[1..], r - 1);
        assert s[r] == u[1..][r - 1];
      } else {
        UncapitalisedAt(w[1..], r - n - 1);
        assert s[r] == w[1..][r - n - 1];
      }
      assert s[r..][0] == s[r];
    }
  }

  /** A word with no inner capital followed by a capitalised word splits
      into exactly those two words. */
  lemma CamelPair(u: string, w: string)
    requires |u| >= 1 && Uncapitalised(u[1..])
    requires |w| >= 2 && IsUpper(w[0]) && !IsStop(w[1]) && Uncapitalised(w[1..])
    ensures Split(u + w) == [u, w]
  {
    var s, n := u + w, |u|;
    CamelPairStarts(u, w);
    SplitFromSkip(s, 0, 0, n);
    assert SplitFrom(s, 0, n) == [s[..n]] + SplitFrom(s, n, n);
    assert SplitFrom(s, n, n) == SplitFrom(s, n, n + 1);
    SplitFromSkip(s, n, n + 1, |s|);
    assert SplitFrom(s, n, |s|) == [s[n..]];
    assert s[..n] == u && s[n..] == w;
  }

  /** The same pair as a tile's name: with no white space at either end it
      is drawn on exactly two lines, one word each. */
  lemma WordWrapCamelPair(u: string, w: string)
    requires |u| >= 1 && Uncapitalised(u[1..]) && !IsSpace(u[0])
    requires |w| >= 2 && IsUpper(w[0]) && !IsStop(w[1]) && Uncapitalised(w[1..])
    requires !IsSpace(w[|w| - 1])
    ensures WordWrap(u + w) == [u, w]
  {
    var s := u + w;
    assert s[0] == u[0] && s[|s| - 1] == w[|w| - 1];
    TrimOfUnpadded(s);
    CamelPair(u, w);
  }
}
