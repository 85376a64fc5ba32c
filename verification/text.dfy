/** String operations the front end relies on, with the JavaScript semantics it uses:
    `trim`, ASCII `toLowerCase`, `includes`, `split`, `join`, global `replace`, decimal
    rendering of numbers, and CSV double-quote escaping. */
module Text {

  import opened Wrappers

  /** JavaScript WhiteSpace and LineTerminator code points: what `String.prototype.trim` strips. */
  predicate IsSpace(c: char) {
    c in SpaceChars || '\U{2000}' <= c <= '\U{200A}'
  }

  /** The white-space code points outside the range U+2000..U+200A. */
  const SpaceChars: set<char> :=
    {'\t', '\n', '\U{000B}', '\U{000C}', '\r', ' ', '\U{00A0}', '\U{1680}',
     '\U{2028}', '\U{2029}', '\U{202F}', '\U{205F}', '\U{3000}', '\U{FEFF}'}

  predicate AllSpace(s: string) {
    forall k | 0 <= k < |s| :: IsSpace(s[k])
  }

  /** A string `trim` leaves alone: empty, or with a non-space at both ends. */
  predicate IsTrimmed(s: string) {
    |s| == 0 || (!IsSpace(s[0]) && !IsSpace(s[|s| - 1]))
  }

  function TrimStart(s: string): (r: string)
    ensures |r| <= |s| && r == s[|s| - |r|..]
    ensures AllSpace(s[..|s| - |r|])
    ensures |r| == 0 || !IsSpace(r[0])
    decreases |s|
  {
    if |s| > 0 && IsSpace(s[0]) then
      var r := TrimStart(s[1..]);
      SpacePrefixGrows(s, |s| - 1 - |r|);
      r
    else s
  }

  /** A space followed by an all-space prefix of the rest is an all-space prefix. */
  lemma SpacePrefixGrows(s: string, n: nat)
    requires n < |s| && IsSpace(s[0]) && AllSpace(s[1..][..n])
    ensures AllSpace(s[..n + 1]) && s[1..][n..] == s[n + 1..]
  {
    var p := s[..n + 1];
    forall k | 0 <= k < |p|
      ensures IsSpace(p[k])
    {
      if k > 0 {
        assert p[k] == s[1..][..n][k - 1];
      }
    }
  }

  function TrimEnd(s: string): (r: string)
    ensures |r| <= |s| && r == s[..|r|]
    ensures AllSpace(s[|r|..])
    ensures |r| == 0 || !IsSpace(r[|r| - 1])
    decreases |s|
  {
    if |s| > 0 && IsSpace(s[|s| - 1]) then
      var r := TrimEnd(s[..|s| - 1]);
      SpaceSuffixGrows(s, |r|);
      r
    else s
  }

  /** An all-space suffix of all but the last character, followed by a space, is an
      all-space suffix. */
  lemma SpaceSuffixGrows(s: string, n: nat)
    requires n < |s| && IsSpace(s[|s| - 1]) && AllSpace(s[..|s| - 1][n..])
    ensures AllSpace(s[n..]) && s[..|s| - 1][..n] == s[..n]
  {
    var p := s[n..];
    forall k | 0 <= k < |p|
      ensures IsSpace(p[k])
    {
      if k < |p| - 1 {
        assert p[k] == s[..|s| - 1][n..][k];
      }
    }
  }

  /** `r` is `s` with the all-space prefix `s[..i]` and an all-space suffix removed. */
  predicate TrimmedAt(s: string, r: string, i: int) {
    0 <= i <= |s| - |r| && s[i..i + |r|] == r && AllSpace(s[..i]) && AllSpace(s[i + |r|..])
  }

  /** `String.prototype.trim`: the middle of `s` between its leading and trailing spaces. */
  function Trim(s: string): (r: string)
    ensures IsTrimmed(r)
    ensures exists i :: TrimmedAt(s, r, i)
  {
    var a := TrimStart(s);
    var r := TrimEnd(a);
    TrimmedMiddle(s, a, r);
    r
  }

  /** Cutting an all-space prefix and then an all-space suffix leaves a middle part. */
  lemma TrimmedMiddle(s: string, a: string, r: string)
    requires |a| <= |s| && a == s[|s| - |a|..] && AllSpace(s[..|s| - |a|])
    requires |r| <= |a| && r == a[..|r|] && AllSpace(a[|r|..])
    ensures TrimmedAt(s, r, |s| - |a|)
  {
    var i := |s| - |a|;
    assert s[i..i + |r|] == r;
    assert s[i + |r|..] == a[|r|..];
  }

  /** `trim` is the identity exactly on trimmed strings. */
  lemma TrimIdentity(s: string)
    ensures Trim(s) == s <==> IsTrimmed(s)
  {
    if IsTrimmed(s) && |s| > 0 {
      assert TrimStart(s) == s;
      assert TrimEnd(s) == s;
    }
  }

  /** A string has one trimmed middle: `trim` gives it whatever padding surrounds it. */
  lemma TrimUnique(s: string, r1: string, i1: int, r2: string, i2: int)
    requires TrimmedAt(s, r1, i1) && IsTrimmed(r1)
    requires TrimmedAt(s, r2, i2) && IsTrimmed(r2)
    ensures r1 == r2
  {
    if |r1| > 0 && |r2| > 0 {
      assert s[i1] == r1[0] && s[i2] == r2[0];
      assert i1 == i2;
      var e1, e2 := i1 + |r1|, i2 + |r2|;
      assert s[e1 - 1] == r1[|r1| - 1] && s[e2 - 1] == r2[|r2| - 1];
      assert e1 == e2;
    }
  }

  lemma AllSpaceConcat(x: string, y: string)
    requires AllSpace(x) && AllSpace(y)
    ensures AllSpace(x + y)
  {
    forall k | 0 <= k < |x + y|
      ensures IsSpace((x + y)[k])
    {
      if k < |x| { assert (x + y)[k] == x[k]; } else { assert (x + y)[k] == y[k - |x|]; }
    }
  }

  /** The middle of a padded string's middle part is a middle of the whole. */
  lemma PaddedMiddle(a: string, p: string, b: string, r: string, i: int)
    requires AllSpace(a) && AllSpace(b) && TrimmedAt(p, r, i) && IsTrimmed(r)
    ensures Trim(a + p + b) == r
  {
    var s := a + p + b;
    assert s[|a| + i..|a| + i + |r|] == p[i..i + |r|];
    assert s[..|a| + i] == a + p[..i];
    AllSpaceConcat(a, p[..i]);
    assert s[|a| + i + |r|..] == p[i + |r|..] + b;
    AllSpaceConcat(p[i + |r|..], b);
    assert TrimmedAt(s, r, |a| + i);
    SameMiddle(s, r, |a| + i);
  }

  /** Spaces around a string do not change its trim. */
  lemma TrimPadded(a: string, p: string, b: string)
    requires AllSpace(a) && AllSpace(b)
    ensures Trim(a + p + b) == Trim(p)
  {
    var i := TrimWitness(p);
    PaddedMiddle(a, p, b, Trim(p), i);
  }

  /** A trimmed middle of `s` is what `trim` gives. */
  lemma SameMiddle(s: string, r: string, i: int)
    requires TrimmedAt(s, r, i) && IsTrimmed(r)
    ensures Trim(s) == r
  {
    var j := TrimWitness(s);
    TrimUnique(s, Trim(s), j, r, i);
  }

  /** Where the trimmed middle of `s` starts. */
  lemma TrimWitness(s: string) returns (i: int)
    ensures TrimmedAt(s, Trim(s), i) && IsTrimmed(Trim(s))
  {
    i :| TrimmedAt(s, Trim(s), i);
  }

  /** A string trims to the empty string exactly when it is all spaces. */
  lemma TrimBlank(s: string)
    ensures Trim(s) == [] <==> AllSpace(s)
  {
    if AllSpace(s) {
      var i :| TrimmedAt(s, Trim(s), i);
    }
  }

  /** ASCII-only `toLowerCase`. */
  function Lower(c: char): char {
    if 'A' <= c <= 'Z' then (c as int + 32) as char else c
  }

  function LowerStr(s: string): (r: string)
    ensures |r| == |s|
    ensures forall k | 0 <= k < |s| :: r[k] == Lower(s[k])
  {
    seq(|s|, k requires 0 <= k < |s| => Lower(s[k]))
  }

  lemma LowerAppend(a: string, b: string)
    ensures LowerStr(a + b) == LowerStr(a) + LowerStr(b)
  {
  }

  /** `s.includes(t)`: `t` occurs in `s` at some position. */
  function Contains(s: string, t: string): (b: bool)
    decreases |s|
  {
    t <= s || (|s| > 0 && Contains(s[1..], t))
  }

  /** `t` occurs in `s` at position `i`. */
  predicate OccursAt(s: string, t: string, i: int) {
    0 <= i <= |s| - |t| && s[i..i + |t|] == t
  }

  /** `Contains` agrees with the positional definition of an occurrence. */
  lemma {:induction false} ContainsIff(s: string, t: string)
    ensures Contains(s, t) <==> exists i :: OccursAt(s, t, i)
    decreases |s|
  {
    if t <= s {
      assert OccursAt(s, t, 0);
    } else if |s| > 0 {
      ContainsIff(s[1..], t);
      if Contains(s[1..], t) {
        var i :| OccursAt(s[1..], t, i);
        assert s[i + 1..i + 1 + |t|] == s[1..][i..i + |t|];
        assert OccursAt(s, t, i + 1);
      }
      if exists i :: OccursAt(s, t, i) {
        var i :| OccursAt(s, t, i);
        if i > 0 {
          assert s[1..][i - 1..i - 1 + |t|] == s[i..i + |t|];
          assert OccursAt(s[1..], t, i - 1);
        }
      }
    }
  }

  lemma ContainsSelf(s: string, t: string)
    requires t <= s
    ensures Contains(s, t)
  {
  }

  function Digit(d: nat): (c: char)
    requires d < 10
    ensures '0' <= c <= '9'
  {
    ('0' as int + d) as char
  }

  /** Decimal rendering of a non-negative number, as template literals print it. */
  function NatToString(n: nat): (r: string)
    ensures |r| >= 1
    ensures forall k | 0 <= k < |r| :: '0' <= r[k] <= '9'
    ensures n >= 10 <==> |r| >= 2
    decreases n
  {
    if n < 10 then [Digit(n)] else NatToString(n / 10) + [Digit(n % 10)]
  }

  /** Different numbers print differently. */
  lemma {:induction false} NatToStringInjective(a: nat, b: nat)
    ensures NatToString(a) == NatToString(b) ==> a == b
    decreases a
  {
    if NatToString(a) == NatToString(b) {
      if a >= 10 && b >= 10 {
        var sa, sb := NatToString(a), NatToString(b);
        assert sa[|sa| - 1] == sb[|sb| - 1];
        assert Digit(a % 10) == Digit(b % 10);
        assert sa[..|sa| - 1] == NatToString(a / 10);
        assert sb[..|sb| - 1] == NatToString(b / 10);
        NatToStringInjective(a / 10, b / 10);
      } else {
        assert a < 10 && b < 10;
        assert NatToString(a)[0] == NatToString(b)[0];
      }
    }
  }

  /** Pieces of `s` between the characters of `seps`: `s.split(/[...]/)` for a character class. */
  function Split(s: string, seps: set<char>): (r: seq<string>)
    ensures |r| >= 1
    ensures forall k, j | 0 <= k < |r| && 0 <= j < |r[k]| :: r[k][j] !in seps
    decreases |s|
  {
    if |s| == 0 then [[]]
    else
      var rest := Split(s[1..], seps);
      if s[0] in seps then [[]] + rest
      else [[s[0]] + rest[0]] + rest[1..]
  }

  /** `r` is a suffix of `s` that is either all of `s` or follows a `c`. */
  predicate SuffixAfter(s: string, c: char, r: string) {
    |r| <= |s| && s[|s| - |r|..] == r && (|r| < |s| ==> s[|s| - |r| - 1] == c)
  }

  /** What a split of `s` at `c` says about its last piece. */
  predicate LastPieceFacts(s: string, c: char, p: seq<string>) {
    |p| >= 1 && (|p| == 1 ==> p[0] == s) && SuffixAfter(s, c, p[|p| - 1]) && (|p| > 1 ==> |p[|p| - 1]| < |s|)
  }

  /** The last piece of a split is the suffix of `s` after the last separator (all of `s`
      when there is none). */
  lemma LastPieceIsSuffix(s: string, c: char)
    ensures var p := Split(s, {c}); |p| == 1 ==> p[0] == s
    ensures var p := Split(s, {c}); var r := p[|p| - 1];
            |r| <= |s| && s[|s| - |r|..] == r && (|r| < |s| ==> s[|s| - |r| - 1] == c) &&
            (|p| > 1 ==> |r| < |s|)
  {
    LastPieceFactsHold(s, c);
  }

  lemma {:induction false} LastPieceFactsHold(s: string, c: char)
    ensures LastPieceFacts(s, c, Split(s, {c}))
    decreases |s|
  {
    if |s| > 0 {
      var rest := Split(s[1..], {c});
      LastPieceFactsHold(s[1..], c);
      SplitCons(s, {c});
      LastPieceCons(s, c, rest);
      var p := if s[0] in {c} then [[]] + rest else [[s[0]] + rest[0]] + rest[1..];
      assert LastPieceFacts(s, c, p);
      assert Split(s, {c}) == p;
    }
  }

  /** How a split of a non-empty string is built from the split of its tail. */
  lemma SplitCons(s: string, seps: set<char>)
    requires |s| > 0
    ensures var rest := Split(s[1..], seps);
            Split(s, seps) == if s[0] in seps then [[]] + rest else [[s[0]] + rest[0]] + rest[1..]
  {
  }

  /** One step of the split: the facts about the tail's pieces carry over to the pieces of
      `s`. */
  lemma LastPieceCons(s: string, c: char, rest: seq<string>)
    requires |s| > 0 && LastPieceFacts(s[1..], c, rest)
    ensures LastPieceFacts(s, c, if s[0] in {c} then [[]] + rest else [[s[0]] + rest[0]] + rest[1..])
  {
    var t := s[1..];
    var r := rest[|rest| - 1];
    if s[0] == c {
      var p := [[]] + rest;
      assert p[|p| - 1] == r;
      LastPieceStep(s, r);
    } else if |rest| == 1 {
      assert [s[0]] + t == s;
    } else {
      var p := [[s[0]] + rest[0]] + rest[1..];
      assert p[|p| - 1] == r;
      LastPieceStep(s, r);
    }
  }

  /** A suffix of `s[1..]` is a suffix of `s`, preceded by the same character. */
  lemma LastPieceStep(s: string, r: string)
    requires |s| > 0 && |r| <= |s| - 1 && s[1..][|s| - 1 - |r|..] == r
    ensures s[|s| - |r|..] == r
    ensures |r| < |s| - 1 ==> s[|s| - |r| - 1] == s[1..][|s| - 1 - |r| - 1]
    ensures |r| == |s| - 1 ==> s[|s| - |r| - 1] == s[0]
  {
    assert s[|s| - |r|..] == s[1..][|s| - 1 - |r|..];
  }

  /** The parts in order with `sep` between neighbours. */
  function Join(parts: seq<string>, sep: string): string {
    if |parts| == 0 then []
    else if |parts| == 1 then parts[0]
    else parts[0] + sep + Join(parts[1..], sep)
  }

  predicate FreeOf(s: string, seps: set<char>) {
    forall j | 0 <= j < |s| :: s[j] !in seps
  }

  lemma {:induction false} SplitFreePrefix(p: string, t: string, seps: set<char>)
    requires FreeOf(p, seps)
    ensures Split(p + t, seps) == [p + Split(t, seps)[0]] + Split(t, seps)[1..]
    decreases |p|
  {
    if |p| > 0 {
      assert (p + t)[1..] == p[1..] + t;
      SplitFreePrefix(p[1..], t, seps);
      assert [p[0]] + (p[1..] + Split(t, seps)[0]) == p + Split(t, seps)[0];
    } else {
      assert p + t == t;
      assert p + Split(t, seps)[0] == Split(t, seps)[0];
      assert Split(t, seps) == [Split(t, seps)[0]] + Split(t, seps)[1..];
    }
  }

  /** Text free of separators appended to a string lengthens the last piece of its split. */
  lemma {:induction false} SplitFreeSuffix(t: string, b: string, seps: set<char>)
    requires FreeOf(b, seps)
    ensures var p := Split(t, seps);
            Split(t + b, seps) == p[..|p| - 1] + [p[|p| - 1] + b]
    decreases |t|
  {
    if |t| == 0 {
      SplitFreePrefix(b, [], seps);
      assert t + b == b + [];
    } else {
      SplitFreeSuffix(t[1..], b, seps);
      assert (t + b)[1..] == t[1..] + b;
      SplitCons(t, seps);
      SplitCons(t + b, seps);
      SuffixStep(t[0], Split(t[1..], seps), b, t[0] in seps);
    }
  }

  /** The piece algebra of one split step, with the last piece lengthened by `b`. */
  lemma SuffixStep(c: char, q: seq<string>, b: string, sep: bool)
    requires |q| >= 1
    ensures var p := if sep then [[]] + q else [[c] + q[0]] + q[1..];
            var r := q[..|q| - 1] + [q[|q| - 1] + b];
            (if sep then [[]] + r else [[c] + r[0]] + r[1..]) == p[..|p| - 1] + [p[|p| - 1] + b]
  {
    var r := q[..|q| - 1] + [q[|q| - 1] + b];
    if !sep {
      if |q| == 1 {
        assert r == [q[0] + b];
        assert [c] + (q[0] + b) == ([c] + q[0]) + b;
      } else {
        assert r[0] == q[0] && r[1..] == q[1..|q| - 1] + [q[|q| - 1] + b];
      }
    }
  }

  /** Text free of separators is a single piece. */
  lemma SplitFree(s: string, seps: set<char>)
    requires FreeOf(s, seps)
    ensures Split(s, seps) == [s]
  {
    SplitFreePrefix(s, [], seps);
    assert s + [] == s;
  }

  /** White space holds no separator when no separator is white space. */
  lemma SpaceFree(s: string, seps: set<char>)
    requires AllSpace(s)
    requires forall c | c in seps :: !IsSpace(c)
    ensures FreeOf(s, seps)
  {
  }

  /** Text free of separators around `t` lengthens only the first and last pieces of its
      split. */
  lemma SplitPadded(lead: string, t: string, trail: string, seps: set<char>)
    requires FreeOf(lead, seps) && FreeOf(trail, seps)
    ensures var p := Split(t, seps);
            var q := p[..|p| - 1] + [p[|p| - 1] + trail];
            Split(lead + t + trail, seps) == [lead + q[0]] + q[1..]
  {
    SplitFreeSuffix(t, trail, seps);
    SplitFreePrefix(lead, t + trail, seps);
    assert lead + t + trail == lead + (t + trail);
  }

  /** Each piece of the padded split trims like the piece of the plain one. */
  lemma PaddedPieceTrim(lead: string, trail: string, p: seq<string>, k: int)
    requires AllSpace(lead) && AllSpace(trail)
    requires 0 <= k < |p|
    ensures var q := p[..|p| - 1] + [p[|p| - 1] + trail];
            var r := [lead + q[0]] + q[1..];
            |r| == |p| && Trim(r[k]) == Trim(p[k])
  {
    var n := |p|;
    var q := p[..n - 1] + [p[n - 1] + trail];
    var r := [lead + q[0]] + q[1..];
    if n == 1 {
      assert r[0] == lead + p[0] + trail;
      TrimPadded(lead, p[0], trail);
    } else if k == 0 {
      assert r[0] == lead + p[0] + [];
      TrimPadded(lead, p[0], []);
    } else if k == n - 1 {
      assert r[k] == [] + p[k] + trail;
      TrimPadded([], p[k], trail);
    } else {
      assert r[k] == p[k];
    }
  }

  /** Spaces around a text change neither the number of pieces of its split nor their
      trims, when no separator is white space. */
  lemma SplitPaddedTrims(lead: string, t: string, trail: string, seps: set<char>)
    requires AllSpace(lead) && AllSpace(trail)
    requires forall c | c in seps :: !IsSpace(c)
    ensures |Split(lead + t + trail, seps)| == |Split(t, seps)|
    ensures forall k | 0 <= k < |Split(t, seps)| :: Trim(Split(lead + t + trail, seps)[k]) == Trim(Split(t, seps)[k])
  {
    SpaceFree(lead, seps);
    SpaceFree(trail, seps);
    SplitPadded(lead, t, trail, seps);
    var p := Split(t, seps);
    forall k | 0 <= k < |p|
      ensures Trim(Split(lead + t + trail, seps)[k]) == Trim(p[k])
    {
      PaddedPieceTrim(lead, trail, p, k);
    }
    PaddedPieceTrim(lead, trail, p, 0);
  }

  /** The pieces of a text's split trim like the pieces of its trimmed middle's split, when
      no separator is white space. */
  lemma SplitTrimmedTrims(raw: string, seps: set<char>)
    requires forall c | c in seps :: !IsSpace(c)
    ensures |Split(raw, seps)| == |Split(Trim(raw), seps)|
    ensures forall k | 0 <= k < |Split(raw, seps)| :: Trim(Split(raw, seps)[k]) == Trim(Split(Trim(raw), seps)[k])
  {
    var lead, trail := TrimPadding(raw);
    SplitPaddedTrims(lead, Trim(raw), trail, seps);
  }

  /** The spaces `trim` removes from either end of `s`. */
  lemma TrimPadding(s: string) returns (lead: string, trail: string)
    ensures s == lead + Trim(s) + trail && AllSpace(lead) && AllSpace(trail)
  {
    var t := Trim(s);
    var i := TrimWitness(s);
    lead, trail := s[..i], s[i + |t|..];
    CutTwice(s, i, i + |t|);
  }

  lemma CutTwice(s: string, i: int, j: int)
    requires 0 <= i <= j <= |s|
    ensures s == s[..i] + s[i..j] + s[j..]
  {
  }

  /** Splitting on a separator undoes joining with it, for parts free of separators. */
  lemma {:induction false} SplitJoin(parts: seq<string>, c: char, seps: set<char>)
    requires |parts| >= 1 && c in seps
    requires forall k | 0 <= k < |parts| :: FreeOf(parts[k], seps)
    ensures Split(Join(parts, [c]), seps) == parts
    decreases |parts|
  {
    if |parts| == 1 {
      SplitFreePrefix(parts[0], [], seps);
      assert parts[0] + [] == parts[0];
    } else {
      var rest := Join(parts[1..], [c]);
      SplitJoin(parts[1..], c, seps);
      assert Join(parts, [c]) == parts[0] + ([c] + rest);
      SplitFreePrefix(parts[0], [c] + rest, seps);
      assert ([c] + rest)[1..] == rest;
      assert Split([c] + rest, seps) == [[]] + parts[1..];
      assert parts[0] + [] == parts[0];
    }
  }

  /** Leftmost, non-overlapping replacement of every occurrence of `pat` by the text `rep`. */
  function ReplaceAll(s: string, pat: string, rep: string): (r: string)
    requires |pat| > 0
    ensures !Contains(s, pat) ==> r == s
    decreases |s|
  {
    if pat <= s then rep + ReplaceAll(s[|pat|..], pat, rep)
    else if |s| == 0 then []
    else [s[0]] + ReplaceAll(s[1..], pat, rep)
  }

  /** ECMAScript GetSubstitution for a pattern without capture groups: the text that replaces
      the match `s[pos..pos + len]` when the replacement string is `rep`. */
  function Substitution(rep: string, s: string, pos: nat, len: nat): string
    requires pos + len <= |s|
    decreases |rep|
  {
    if |rep| == 0 then []
    else if |rep| >= 2 && rep[0] == '$' && rep[1] == '$' then "$" + Substitution(rep[2..], s, pos, len)
    else if |rep| >= 2 && rep[0] == '$' && rep[1] == '&' then s[pos..pos + len] + Substitution(rep[2..], s, pos, len)
    else if |rep| >= 2 && rep[0] == '$' && rep[1] == '`' then s[..pos] + Substitution(rep[2..], s, pos, len)
    else if |rep| >= 2 && rep[0] == '$' && rep[1] == '\'' then s[pos + len..] + Substitution(rep[2..], s, pos, len)
    else [rep[0]] + Substitution(rep[1..], s, pos, len)
  }

  function JsReplaceFrom(s: string, pat: string, rep: string, i: nat): string
    requires |pat| > 0 && i <= |s|
    decreases |s| - i
  {
    if pat <= s[i..] then Substitution(rep, s, i, |pat|) + JsReplaceFrom(s, pat, rep, i + |pat|)
    else if i == |s| then []
    else [s[i]] + JsReplaceFrom(s, pat, rep, i + 1)
  }

  /** `s.replace(/pat/g, rep)` with a string `rep`, as the engine evaluates it: `$` sequences
      in `rep` are expanded. */
  function JsReplaceAll(s: string, pat: string, rep: string): string
    requires |pat| > 0
  {
    JsReplaceFrom(s, pat, rep, 0)
  }

  lemma {:induction false} SubstitutionLiteral(rep: string, s: string, pos: nat, len: nat)
    requires pos + len <= |s|
    requires '$' !in rep
    ensures Substitution(rep, s, pos, len) == rep
    decreases |rep|
  {
    if |rep| > 0 {
      assert rep[0] != '$';
      SubstitutionLiteral(rep[1..], s, pos, len);
      assert [rep[0]] + rep[1..] == rep;
    }
  }

  lemma {:induction false} JsReplaceFromLiteral(s: string, pat: string, rep: string, i: nat)
    requires |pat| > 0 && i <= |s|
    requires '$' !in rep
    ensures JsReplaceFrom(s, pat, rep, i) == ReplaceAll(s[i..], pat, rep)
    decreases |s| - i
  {
    if pat <= s[i..] {
      JsReplaceFromLiteral(s, pat, rep, i + |pat|);
      LiteralStepAtMatch(s, pat, rep, i);
    } else if i < |s| {
      JsReplaceFromLiteral(s, pat, rep, i + 1);
      LiteralStepPastChar(s, pat, rep, i);
    }
  }

  lemma LiteralStepAtMatch(s: string, pat: string, rep: string, i: nat)
    requires |pat| > 0 && i <= |s| && '$' !in rep && pat <= s[i..]
    requires JsReplaceFrom(s, pat, rep, i + |pat|) == ReplaceAll(s[i + |pat|..], pat, rep)
    ensures JsReplaceFrom(s, pat, rep, i) == ReplaceAll(s[i..], pat, rep)
  {
    var t := s[i..];
    SubstitutionLiteral(rep, s, i, |pat|);
    assert t[|pat|..] == s[i + |pat|..];
    assert JsReplaceFrom(s, pat, rep, i) == rep + JsReplaceFrom(s, pat, rep, i + |pat|);
    assert ReplaceAll(t, pat, rep) == rep + ReplaceAll(t[|pat|..], pat, rep);
  }

  lemma LiteralStepPastChar(s: string, pat: string, rep: string, i: nat)
    requires |pat| > 0 && i < |s| && !(pat <= s[i..])
    requires JsReplaceFrom(s, pat, rep, i + 1) == ReplaceAll(s[i + 1..], pat, rep)
    ensures JsReplaceFrom(s, pat, rep, i) == ReplaceAll(s[i..], pat, rep)
  {
    var t := s[i..];
    assert t[1..] == s[i + 1..] && t[0] == s[i];
    assert JsReplaceFrom(s, pat, rep, i) == [s[i]] + JsReplaceFrom(s, pat, rep, i + 1);
    assert ReplaceAll(t, pat, rep) == [t[0]] + ReplaceAll(t[1..], pat, rep);
  }

  /** Without a `$` in the replacement, the engine's replacement is the literal one. */
  lemma JsReplaceAllLiteral(s: string, pat: string, rep: string)
    requires |pat| > 0
    requires '$' !in rep
    ensures JsReplaceAll(s, pat, rep) == ReplaceAll(s, pat, rep)
  {
    JsReplaceFromLiteral(s, pat, rep, 0);
    assert s[0..] == s;
  }

  /** CSV escaping: every `"` doubled. */
  function EscapeQuotes(s: string): (r: string)
    ensures |r| >= |s|
    decreases |s|
  {
    if |s| == 0 then []
    else (if s[0] == '"' then "\"\"" else [s[0]]) + EscapeQuotes(s[1..])
  }

  /** Inverse of `EscapeQuotes`; a lone `"` is malformed. */
  function UnescapeQuotes(t: string): (r: Option<string>)
    decreases |t|
  {
    if |t| == 0 then Some([])
    else if t[0] == '"' then
      if |t| >= 2 && t[1] == '"' then
        match UnescapeQuotes(t[2..])
        case Some(rest) => Some("\"" + rest)
        case None => None
      else None
    else
      match UnescapeQuotes(t[1..])
      case Some(rest) => Some([t[0]] + rest)
      case None => None
  }

  /** A CSV cell holding `s`: quoted, with inner quotes doubled. */
  function QuoteField(s: string): string {
    "\"" + EscapeQuotes(s) + "\""
  }

  /** Reads back a quoted CSV cell. */
  function ReadQuotedField(f: string): Option<string> {
    if |f| >= 2 && f[0] == '"' && f[|f| - 1] == '"' then UnescapeQuotes(f[1..|f| - 1]) else None
  }

  lemma {:induction false} UnescapeEscape(s: string)
    ensures UnescapeQuotes(EscapeQuotes(s)) == Some(s)
    decreases |s|
  {
    if |s| > 0 {
      UnescapeEscape(s[1..]);
      var e := EscapeQuotes(s);
      if s[0] == '"' {
        assert e[2..] == EscapeQuotes(s[1..]);
      } else {
        assert e[1..] == EscapeQuotes(s[1..]);
      }
      assert [s[0]] + s[1..] == s;
    }
  }

  /** A quoted cell reads back as the text that was written. */
  lemma QuoteFieldRoundTrip(s: string)
    ensures ReadQuotedField(QuoteField(s)) == Some(s)
  {
    var f := QuoteField(s);
    assert f[1..|f| - 1] == EscapeQuotes(s);
    UnescapeEscape(s);
  }

}
