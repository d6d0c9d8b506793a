// Python string, path and ordering semantics used throughout the model.
// Characters are compared by code point; only ASCII letters, digits and
// whitespace are classified (see README, "Left out").
module Text {
  import opened Wrappers

  predicate IsDigit(c: char) { '0' <= c <= '9' }
  predicate IsLetter(c: char) { 'a' <= c <= 'z' || 'A' <= c <= 'Z' }
  predicate IsAlnum(c: char) { IsDigit(c) || IsLetter(c) }

  /** The ASCII characters Python 3's `str.strip()` and `str.split()` treat as whitespace:
      tab to carriage return, the four separators U+001C to U+001F, and the space. */
  const Whitespace: set<char> := {' ', '\t', '\n', '\r', '\U{000B}', '\U{000C}',
                                  '\U{001C}', '\U{001D}', '\U{001E}', '\U{001F}'}

  function LowerChar(c: char): char
  {
    if 'A' <= c <= 'Z' then (c as int + 32) as char else c
  }

  /** `s.lower()` on ASCII letters. */
  function Lower(s: string): (r: string)
    ensures |r| == |s|
  {
    if s == [] then [] else [LowerChar(s[0])] + Lower(s[1..])
  }

  /** `re.match('^\d+$', s)`: one or more digits and nothing else. */
  predicate AllDigits(s: string)
  {
    |s| > 0 && forall i :: 0 <= i < |s| ==> IsDigit(s[i])
  }

  predicate StartsWith(s: string, p: string) { |p| <= |s| && s[..|p|] == p }
  predicate EndsWith(s: string, p: string) { |p| <= |s| && s[|s| - |p|..] == p }

  /** `sub` occurs in `s` starting at index `i`. */
  predicate OccursAt(s: string, sub: string, i: int)
  {
    0 <= i && i + |sub| <= |s| && s[i..i + |sub|] == sub
  }

  /** `s.find(sub, i)`: the first occurrence at or after `i`. */
  function FindFrom(s: string, sub: string, i: nat): (r: Option<nat>)
    ensures r.Some? ==> i <= r.value && OccursAt(s, sub, r.value)
    ensures r.Some? ==> forall j :: i <= j < r.value ==> !OccursAt(s, sub, j)
    ensures r.None? ==> forall j :: i <= j ==> !OccursAt(s, sub, j)
    decreases |s| - i
  {
    if i + |sub| > |s| then None
    else if s[i..i + |sub|] == sub then Some(i)
    else FindFrom(s, sub, i + 1)
  }

  /** The first occurrence at or after `i` is at `k`. */
  lemma {:induction false} FindFromFirst(s: string, sub: string, i: nat, k: nat)
    requires i <= k && OccursAt(s, sub, k) && forall j :: i <= j < k ==> !OccursAt(s, sub, j)
    ensures FindFrom(s, sub, i) == Some(k)
    decreases k - i
  {
    if i < k {
      assert !OccursAt(s, sub, i);
      FindFromFirst(s, sub, i + 1, k);
    }
  }

  /** Python's `sub in s` on strings. */
  predicate Contains(s: string, sub: string)
  {
    FindFrom(s, sub, 0).Some?
  }

  lemma ContainsIff(s: string, sub: string)
    ensures Contains(s, sub) <==> exists j :: OccursAt(s, sub, j)
  {
    var f := FindFrom(s, sub, 0);
    if f.Some? {
      assert OccursAt(s, sub, f.value);
    }
  }

  /** The start of the last occurrence of `sub` at or before index `i`. */
  function FindLastFrom(s: string, sub: string, i: nat): (r: Option<nat>)
    ensures r.Some? ==> r.value <= i && OccursAt(s, sub, r.value)
    ensures r.Some? ==> forall j :: r.value < j <= i ==> !OccursAt(s, sub, j)
    ensures r.None? ==> forall j :: 0 <= j <= i ==> !OccursAt(s, sub, j)
  {
    if OccursAt(s, sub, i) then Some(i) else if i == 0 then None else FindLastFrom(s, sub, i - 1)
  }

  /** `s.rfind(sub)`: the start of the last occurrence. */
  function FindLast(s: string, sub: string): (r: Option<nat>)
    ensures r.Some? ==> OccursAt(s, sub, r.value) && forall j :: r.value < j ==> !OccursAt(s, sub, j)
    ensures r.None? ==> forall j :: !OccursAt(s, sub, j)
  {
    FindLastFrom(s, sub, |s|)
  }

  /** A slice of a prefix is the same slice of the whole. */
  lemma SliceOfPrefix<T>(s: seq<T>, i: nat, j: nat, n: nat)
    requires j + n <= i <= |s|
    ensures s[..i][j..j + n] == s[j..j + n]
  {
    var x, y := s[..i][j..j + n], s[j..j + n];
    forall k | 0 <= k < n ensures x[k] == y[k] {
      assert x[k] == s[j + k];
    }
  }

  /** A slice lying in the second part of a concatenation is a slice of that part. */
  lemma SliceOfSecond<T>(a: seq<T>, c: seq<T>, j: nat, n: nat)
    requires |a| <= j && j + n <= |a| + |c|
    ensures (a + c)[j..j + n] == c[j - |a|..j - |a| + n]
  {
    var x, y := (a + c)[j..j + n], c[j - |a|..j - |a| + n];
    forall k | 0 <= k < n ensures x[k] == y[k] {
      assert (a + c)[j + k] == c[j - |a| + k];
    }
  }

  lemma AppendAssoc<T>(a: seq<T>, b: seq<T>, c: seq<T>)
    ensures a + b + c == a + (b + c)
  {
  }

  lemma JoinCons(sep: string, x: string, ps: seq<string>)
    requires ps != []
    ensures Join(sep, [x] + ps) == x + sep + Join(sep, ps)
  {
    assert ([x] + ps)[1..] == ps;
  }

  /** `sep.join(parts)`. */
  function Join(sep: string, parts: seq<string>): string
  {
    if |parts| == 0 then ""
    else if |parts| == 1 then parts[0]
    else parts[0] + sep + Join(sep, parts[1..])
  }

  /** Joining two non-empty lists is joining each and putting the separator between. */
  lemma {:induction false} JoinAppend(a: seq<string>, b: seq<string>, sep: string)
    requires a != [] && b != []
    ensures Join(sep, a + b) == Join(sep, a) + sep + Join(sep, b)
    decreases |a|
  {
    if |a| == 1 {
      assert (a + b)[1..] == b;
    } else {
      assert (a + b)[1..] == a[1..] + b;
      JoinAppend(a[1..], b, sep);
    }
  }

  /** `s.split(sep)` for a non-empty separator: the pieces between occurrences, left to right. */
  function Split(s: string, sep: string): (r: seq<string>)
    requires |sep| > 0
    ensures |r| >= 1
    decreases |s|
  {
    match FindFrom(s, sep, 0)
    case None => [s]
    case Some(i) => [s[..i]] + Split(s[i + |sep|..], sep)
  }

  /** Joining the pieces of a split with the separator gives back the string. */
  lemma {:induction false} SplitJoin(s: string, sep: string)
    requires |sep| > 0
    ensures Join(sep, Split(s, sep)) == s
    decreases |s|
  {
    var f := FindFrom(s, sep, 0);
    if f.Some? {
      var i := f.value;
      var rest := s[i + |sep|..];
      SplitAt(s, sep, i);
      SplitJoin(rest, sep);
      JoinCons(sep, s[..i], Split(rest, sep));
    }
  }

  /** At the first occurrence of the separator: the piece before it, then the split of
      what follows it. */
  lemma SplitAt(s: string, sep: string, i: nat)
    requires |sep| > 0 && FindFrom(s, sep, 0) == Some(i)
    ensures Split(s, sep) == [s[..i]] + Split(s[i + |sep|..], sep)
    ensures s == s[..i] + sep + s[i + |sep|..]
  {
    assert s[i..i + |sep|] == sep;
    assert s[i..] == s[i..i + |sep|] + s[i + |sep|..];
    assert s == s[..i] + s[i..];
    AppendAssoc(s[..i], sep, s[i + |sep|..]);
  }

  /** No piece of a split contains the separator. */
  lemma {:induction false} SplitPiecesFree(s: string, sep: string)
    requires |sep| > 0
    ensures forall k :: 0 <= k < |Split(s, sep)| ==> !Contains(Split(s, sep)[k], sep)
    decreases |s|
  {
    var r := Split(s, sep);
    match FindFrom(s, sep, 0)
    case None =>
    case Some(i) =>
      var rest := s[i + |sep|..];
      var head := s[..i];
      assert !Contains(head, sep) by {
        forall j ensures !OccursAt(head, sep, j) {
          if 0 <= j && j + |sep| <= i {
            SliceOfPrefix(s, i, j, |sep|);
            assert j < i && !OccursAt(s, sep, j);
            assert head[j..j + |sep|] == s[j..j + |sep|];
          }
        }
        ContainsIff(head, sep);
      }
      SplitPiecesFree(rest, sep);
      assert r == [head] + Split(rest, sep);
      FreeOfCons(head, Split(rest, sep), sep);
  }

  lemma FreeOfCons(head: string, ps: seq<string>, sep: string)
    requires !Contains(head, sep) && forall k :: 0 <= k < |ps| ==> !Contains(ps[k], sep)
    ensures forall k :: 0 <= k < |[head] + ps| ==> !Contains(([head] + ps)[k], sep)
  {
    forall k | 0 < k < |[head] + ps| ensures !Contains(([head] + ps)[k], sep) {
      assert ([head] + ps)[k] == ps[k - 1];
    }
  }

  /** `s.replace(pat, rep)`: every non-overlapping occurrence, left to right. */
  function ReplaceAll(s: string, pat: string, rep: string): (r: string)
    requires |pat| > 0
    decreases |s|
  {
    match FindFrom(s, pat, 0)
    case None => s
    case Some(i) => s[..i] + rep + ReplaceAll(s[i + |pat|..], pat, rep)
  }

  /** Replacing every occurrence is splitting on it and joining with the replacement. */
  lemma {:induction false} ReplaceAllIsSplitJoin(s: string, pat: string, rep: string)
    requires |pat| > 0
    ensures ReplaceAll(s, pat, rep) == Join(rep, Split(s, pat))
    decreases |s|
  {
    match FindFrom(s, pat, 0)
    case None =>
    case Some(i) =>
      var tail := s[i + |pat|..];
      ReplaceAllIsSplitJoin(tail, pat, rep);
      assert Split(s, pat) == [s[..i]] + Split(tail, pat);
      assert ReplaceAll(s, pat, rep) == s[..i] + rep + ReplaceAll(tail, pat, rep);
      JoinCons(rep, s[..i], Split(tail, pat));
  }

  /** A string free of the one-character string `[c]` holds no `c`. */
  lemma CharFree(s: string, c: char)
    requires !Contains(s, [c])
    ensures c !in s
  {
    ContainsIff(s, [c]);
    forall j | 0 <= j < |s| ensures s[j] != c {
      assert !OccursAt(s, [c], j);
      assert s[j..j + 1] == [s[j]];
    }
  }

  /** A string without the first character of the separator holds no separator. */
  lemma LeadFree(p: string, sep: string)
    requires |sep| > 0 && sep[0] !in p
    ensures FindFrom(p, sep, 0).None?
  {
    forall j | 0 <= j && j + |sep| <= |p| ensures !OccursAt(p, sep, j) {
      assert p[j..j + |sep|][0] == p[j];
    }
  }

  /** In `p + sep + rest`, with `p` free of the separator's first character, the first
      separator follows `p`. */
  lemma LeadFreeFirst(p: string, sep: string, rest: string)
    requires |sep| > 0 && sep[0] !in p
    ensures FindFrom(p + sep + rest, sep, 0) == Some(|p|)
  {
    var s := p + sep + rest;
    assert OccursAt(s, sep, |p|) by { assert s[|p|..|p| + |sep|] == sep; }
    forall k | 0 <= k < |p| ensures !OccursAt(s, sep, k) {
      if k + |sep| <= |s| {
        assert s[k..k + |sep|][0] == s[k] == p[k];
      }
    }
    FindFromFirst(s, sep, 0, |p|);
  }

  /** Splitting joined pieces gives them back when no piece holds the first character
      of the separator. */
  lemma {:induction false} JoinSplitLead(ps: seq<string>, sep: string)
    requires |sep| > 0 && ps != [] && forall i :: 0 <= i < |ps| ==> sep[0] !in ps[i]
    ensures Split(Join(sep, ps), sep) == ps
    decreases |ps|
  {
    var p := ps[0];
    if |ps| == 1 {
      LeadFree(p, sep);
    } else {
      var rest := Join(sep, ps[1..]);
      var s := p + sep + rest;
      assert Join(sep, ps) == s;
      LeadFreeFirst(p, sep, rest);
      assert s[..|p|] == p && s[|p| + |sep|..] == rest;
      assert Split(s, sep) == [p] + Split(rest, sep);
      JoinSplitLead(ps[1..], sep);
      assert ps == [p] + ps[1..];
    }
  }

  /** Indenting every line break by `k` spaces can be undone: the text is recovered. */
  lemma IndentRoundTrip(c: string, k: nat)
    ensures ReplaceAll(ReplaceAll(c, "\n", "\n" + Repeat(' ', k)), "\n" + Repeat(' ', k), "\n") == c
  {
    var ind := "\n" + Repeat(' ', k);
    var ps := Split(c, "\n");
    ReplaceAllIsSplitJoin(c, "\n", ind);
    SplitPiecesFree(c, "\n");
    forall i | 0 <= i < |ps| ensures ind[0] !in ps[i] {
      CharFree(ps[i], '\n');
    }
    JoinSplitLead(ps, ind);
    ReplaceAllIsSplitJoin(Join(ind, ps), ind, "\n");
    SplitJoin(c, "\n");
  }

  /** Replacing a pattern by a non-empty text that shares no character with it leaves
      no occurrence of the pattern. */
  lemma {:induction false} ReplaceAllRemoves(s: string, pat: string, rep: string)
    requires |pat| > 0 && |rep| > 0 && forall j :: 0 <= j < |rep| ==> rep[j] !in pat
    ensures !Contains(ReplaceAll(s, pat, rep), pat)
    decreases |s|
  {
    match FindFrom(s, pat, 0)
    case None =>
    case Some(i) =>
      var tail := s[i + |pat|..];
      var rest := ReplaceAll(tail, pat, rep);
      var r := s[..i] + rep + rest;
      assert ReplaceAll(s, pat, rep) == r;
      assert forall j: int :: !OccursAt(rest, pat, j) by {
        ReplaceAllRemoves(tail, pat, rep);
        ContainsIff(rest, pat);
      }
      assert forall j: int :: 0 <= j && j + |pat| <= i ==> !OccursAt(s[..i], pat, j) by {
        forall j: int | 0 <= j && j + |pat| <= i ensures !OccursAt(s[..i], pat, j) {
          SliceOfPrefix(s, i, j, |pat|);
          assert !OccursAt(s, pat, j);
        }
      }
      NoneAround(s[..i], rep, rest, pat);
      ContainsIff(r, pat);
  }

  /** No occurrence in `a` or in `b`, and a separator that shares no character with the
      pattern: no occurrence in `a + rep + b`. */
  lemma NoneAround(a: string, rep: string, b: string, pat: string)
    requires |pat| > 0 && |rep| > 0 && forall j :: 0 <= j < |rep| ==> rep[j] !in pat
    requires forall j: int :: 0 <= j && j + |pat| <= |a| ==> !OccursAt(a, pat, j)
    requires forall j: int :: !OccursAt(b, pat, j)
    ensures forall j: int :: !OccursAt(a + rep + b, pat, j)
  {
    var r := a + rep + b;
    forall j: int | 0 <= j && j + |pat| <= |r| ensures !OccursAt(r, pat, j) {
      if j + |pat| <= |a| {
        assert r[j..j + |pat|] == a[j..j + |pat|];
        assert !OccursAt(a, pat, j);
      } else if j >= |a| + |rep| {
        assert r[j..j + |pat|] == b[j - |a| - |rep|..j - |a| - |rep| + |pat|];
        assert !OccursAt(b, pat, j - |a| - |rep|);
      } else {
        CrossesSeparator(a, rep, b, pat, j);
      }
    }
  }

  lemma CrossesSeparator(a: string, rep: string, b: string, pat: string, j: int)
    requires |pat| > 0 && |rep| > 0 && forall k :: 0 <= k < |rep| ==> rep[k] !in pat
    requires 0 <= j < |a| + |rep| && |a| < j + |pat| <= |a + rep + b|
    ensures !OccursAt(a + rep + b, pat, j)
  {
    var r := a + rep + b;
    var m := if j < |a| then |a| else j;
    assert r[m] == rep[m - |a|];
    assert r[j..j + |pat|][m - j] == r[m];
    assert rep[m - |a|] != pat[m - j];
  }

  /** `s.replace(pat, rep, 1)`: the first occurrence only. */
  function ReplaceFirst(s: string, pat: string, rep: string): (r: string)
    requires |pat| > 0
    ensures !Contains(s, pat) ==> r == s
    ensures StartsWith(s, pat) ==> r == rep + s[|pat|..]
  {
    match FindFrom(s, pat, 0)
    case None => s
    case Some(i) =>
      assert StartsWith(s, pat) ==> OccursAt(s, pat, 0);
      s[..i] + rep + s[i + |pat|..]
  }

  /** `s.lstrip(chars)`. */
  function LStrip(s: string, chars: set<char>): (r: string)
    ensures |r| <= |s| && r == s[|s| - |r|..]
    ensures r == [] || r[0] !in chars
    ensures forall i :: 0 <= i < |s| - |r| ==> s[i] in chars
  {
    if |s| > 0 && s[0] in chars then LStrip(s[1..], chars) else s
  }

  /** `s.rstrip(chars)`. */
  function RStrip(s: string, chars: set<char>): (r: string)
    ensures |r| <= |s| && r == s[..|r|]
    ensures r == [] || r[|r| - 1] !in chars
    ensures forall i :: |r| <= i < |s| ==> s[i] in chars
  {
    if |s| > 0 && s[|s| - 1] in chars then RStrip(s[..|s| - 1], chars) else s
  }

  /** `s.strip(chars)`. */
  function StripChars(s: string, chars: set<char>): string
  {
    RStrip(LStrip(s, chars), chars)
  }

  /** `s.strip()`. */
  function Strip(s: string): string
  {
    StripChars(s, Whitespace)
  }

  /** Length of the leading run of non-whitespace characters. */
  function WordLength(s: string): (n: nat)
    ensures n <= |s|
    ensures forall i :: 0 <= i < n ==> s[i] !in Whitespace
    ensures n < |s| ==> s[n] in Whitespace
  {
    if |s| == 0 || s[0] in Whitespace then 0 else 1 + WordLength(s[1..])
  }

  /** `s.split()`: the maximal runs of non-whitespace characters. */
  function Words(s: string): (r: seq<string>)
    ensures forall k :: 0 <= k < |r| ==> |r[k]| > 0
    decreases |s|
  {
    var t := LStrip(s, Whitespace);
    if t == [] then []
    else
      var n := WordLength(t);
      assert t[0] !in Whitespace;
      assert 0 < n <= |t| <= |s|;
      var rest := Words(t[n..]);
      NonEmptyCons(t[..n], rest);
      [t[..n]] + rest
  }

  lemma NonEmptyCons(w: string, ws: seq<string>)
    requires |w| > 0 && forall k :: 0 <= k < |ws| ==> |ws[k]| > 0
    ensures forall k :: 0 <= k < |[w] + ws| ==> |([w] + ws)[k]| > 0
  {
    forall k | 0 <= k < |[w] + ws| ensures |([w] + ws)[k]| > 0 {
      if k > 0 {
        assert ([w] + ws)[k] == ws[k - 1];
      }
    }
  }

  predicate NoWhitespace(w: string)
  {
    forall j :: 0 <= j < |w| ==> w[j] !in Whitespace
  }

  /** The words hold no whitespace. */
  lemma {:induction false} WordsHaveNoWhitespace(s: string)
    ensures forall k :: 0 <= k < |Words(s)| ==> NoWhitespace(Words(s)[k])
    decreases |s|
  {
    var t := LStrip(s, Whitespace);
    if t != [] {
      var n := WordsUnfold(s);
      WordLengthNoWhitespace(t);
      WordsHaveNoWhitespace(t[n..]);
      NoWhitespaceCons(t[..n], Words(t[n..]));
    }
  }

  /** A string with a word in it splits into its first word and the words after it. */
  lemma WordsUnfold(s: string) returns (n: nat)
    requires LStrip(s, Whitespace) != []
    ensures var t := LStrip(s, Whitespace);
      && n == WordLength(t) && 0 < n <= |t| <= |s| && Words(s) == [t[..n]] + Words(t[n..])
  {
    var t := LStrip(s, Whitespace);
    n := WordLength(t);
    assert t[0] !in Whitespace;
  }

  /** The leading run of non-whitespace characters holds no whitespace. */
  lemma WordLengthNoWhitespace(t: string)
    ensures NoWhitespace(t[..WordLength(t)])
  {
    var w := t[..WordLength(t)];
    forall j | 0 <= j < |w| ensures w[j] !in Whitespace {
      assert w[j] == t[j];
    }
  }

  lemma NoWhitespaceCons(w: string, ws: seq<string>)
    requires NoWhitespace(w) && forall k :: 0 <= k < |ws| ==> NoWhitespace(ws[k])
    ensures forall k :: 0 <= k < |[w] + ws| ==> NoWhitespace(([w] + ws)[k])
  {
    forall k | 0 < k < |[w] + ws| ensures NoWhitespace(([w] + ws)[k]) {
      assert ([w] + ws)[k] == ws[k - 1];
    }
  }

  function Repeat(c: char, n: nat): (r: string)
    ensures |r| == n && forall i :: 0 <= i < n ==> r[i] == c
  {
    seq(n, _ => c)
  }

  function DigitChar(d: nat): char
    requires d < 10
  {
    ('0' as int + d) as char
  }

  /** `str(n)` for a natural number. */
  function NatToString(n: nat): (r: string)
    ensures AllDigits(r)
    ensures n >= 10 ==> r[0] != '0'
  {
    if n < 10 then [DigitChar(n)] else NatToString(n / 10) + [DigitChar(n % 10)]
  }

  /** `int(s)` on a string of decimal digits; anything else is a ValueError. */
  function ParseNat(s: string): (r: Option<nat>)
    ensures r.Some? <==> AllDigits(s)
  {
    if !AllDigits(s) then None else Some(DigitsValue(s))
  }

  function DigitsValue(s: string): nat
    requires forall i :: 0 <= i < |s| ==> IsDigit(s[i])
  {
    if |s| == 0 then 0
    else
      assert IsDigit(s[|s| - 1]);
      10 * DigitsValue(s[..|s| - 1]) + (s[|s| - 1] as int - '0' as int)
  }

  /** Reading back a printed number gives the number. */
  lemma {:induction false} ParseNatToString(n: nat)
    ensures ParseNat(NatToString(n)) == Some(n)
  {
    var s := NatToString(n);
    if n >= 10 {
      ParseNatToString(n / 10);
      assert s[..|s| - 1] == NatToString(n / 10);
      assert s[|s| - 1] as int - '0' as int == n % 10;
      assert DigitsValue(s) == 10 * (n / 10) + n % 10;
    } else {
      assert DigitsValue(s) == DigitsValue([]) * 10 + n by {
        assert s[..0] == [];
      }
    }
  }

  /** `s.rfind(c)`: the last index holding `c`, or -1. */
  function RFind(s: string, c: char): (r: int)
    ensures -1 <= r < |s|
    ensures r >= 0 ==> s[r] == c
    ensures forall j :: r < j < |s| ==> s[j] != c
  {
    if |s| == 0 then -1 else if s[|s| - 1] == c then |s| - 1 else RFind(s[..|s| - 1], c)
  }

  /** `os.path.basename(p)`: the text after the last `/`. */
  function Basename(p: string): (r: string)
    ensures |r| <= |p| && r == p[|p| - |r|..]
    ensures '/' !in r
  {
    p[RFind(p, '/') + 1..]
  }

  /** `os.path.dirname(p)` (posixpath): the head up to the last `/`, trailing slashes
      removed unless the head is all slashes. */
  function Dirname(p: string): (r: string)
  {
    var head := p[..RFind(p, '/') + 1];
    if head != [] && head != Repeat('/', |head|) then RStrip(head, {'/'}) else head
  }

  /** `os.path.join(a, b)` for two components (posixpath). */
  function PathJoin(a: string, b: string): string
  {
    if StartsWith(b, "/") then b
    else if a == [] || EndsWith(a, "/") then a + b
    else a + "/" + b
  }

  /** Python's `<` on strings: lexicographic by code point, a proper prefix first. */
  predicate Lt(a: string, b: string)
    decreases |a|
  {
    |b| > 0 && (|a| == 0 || a[0] < b[0] || (a[0] == b[0] && Lt(a[1..], b[1..])))
  }

  lemma {:induction false} LtIrreflexive(a: string)
    ensures !Lt(a, a)
    decreases |a|
  {
    if |a| > 0 { LtIrreflexive(a[1..]); }
  }

  lemma {:induction false} LtTransitive(a: string, b: string, c: string)
    requires Lt(a, b) && Lt(b, c)
    ensures Lt(a, c)
    decreases |a|
  {
    if |a| > 0 && a[0] == b[0] && b[0] == c[0] {
      LtTransitive(a[1..], b[1..], c[1..]);
    }
  }

  lemma {:induction false} LtAsymmetric(a: string, b: string)
    requires Lt(a, b)
    ensures !Lt(b, a)
    decreases |a|
  {
    if |a| > 0 && a[0] == b[0] {
      LtAsymmetric(a[1..], b[1..]);
    }
  }

  lemma {:induction false} LtTotal(a: string, b: string)
    ensures a == b || Lt(a, b) || Lt(b, a)
    decreases |a|
  {
    if |a| > 0 && |b| > 0 && a[0] == b[0] {
      LtTotal(a[1..], b[1..]);
      if a[1..] == b[1..] {
        assert a == [a[0]] + a[1..] && b == [b[0]] + b[1..];
      }
    }
  }

  /** Ordered by `key` (ties in any order), as `sorted(s, key=key)` leaves it. */
  predicate SortedBy<T>(s: seq<T>, key: T -> string)
  {
    forall i, j :: 0 <= i < j < |s| ==> !Lt(key(s[j]), key(s[i]))
  }

  /** Strictly ascending, hence duplicate-free: `sorted(set(...))`. */
  predicate StrictlySorted(s: seq<string>)
  {
    forall i, j :: 0 <= i < j < |s| ==> Lt(s[i], s[j])
  }

  /** Inserts `x` after every element whose key is not greater than its own. */
  function InsertBy<T>(x: T, s: seq<T>, key: T -> string): (r: seq<T>)
    requires SortedBy(s, key)
    ensures SortedBy(r, key)
    ensures multiset(r) == multiset(s) + multiset{x}
  {
    if s == [] then [x]
    else if Lt(key(x), key(s[0])) then
      NoneBelow(x, s, key);
      ConsSorted(x, s, key);
      [x] + s
    else
      var t := InsertBy(x, s[1..], key);
      NotBelowHead(x, s, t, key);
      ConsSorted(s[0], t, key);
      assert s == [s[0]] + s[1..];
      [s[0]] + t
  }

  /** Nothing in a sorted list sorts before a key below its first one. */
  lemma NoneBelow<T>(x: T, s: seq<T>, key: T -> string)
    requires SortedBy(s, key) && s != [] && Lt(key(x), key(s[0]))
    ensures forall j :: 0 <= j < |s| ==> !Lt(key(s[j]), key(x))
  {
    forall j | 0 <= j < |s| ensures !Lt(key(s[j]), key(x)) {
      if j == 0 { LtIrreflexive(key(s[0])); }
      if Lt(key(s[j]), key(x)) { LtTransitive(key(s[j]), key(x), key(s[0])); }
    }
  }

  /** Putting in front an element that nothing sorts before keeps a list sorted. */
  lemma ConsSorted<T>(y: T, t: seq<T>, key: T -> string)
    requires SortedBy(t, key) && forall j :: 0 <= j < |t| ==> !Lt(key(t[j]), key(y))
    ensures SortedBy([y] + t, key)
  {
    var r := [y] + t;
    forall i, j | 0 <= i < j < |r| ensures !Lt(key(r[j]), key(r[i])) {
      assert r[j] == t[j - 1];
      if i > 0 { assert r[i] == t[i - 1]; }
    }
  }

  /** The rest of a sorted list, with `x` inserted, holds nothing sorting before its head. */
  lemma NotBelowHead<T>(x: T, s: seq<T>, t: seq<T>, key: T -> string)
    requires SortedBy(s, key) && s != [] && !Lt(key(x), key(s[0]))
    requires multiset(t) == multiset(s[1..]) + multiset{x}
    ensures forall j :: 0 <= j < |t| ==> !Lt(key(t[j]), key(s[0]))
  {
    forall j | 0 <= j < |t| ensures !Lt(key(t[j]), key(s[0])) {
      assert t[j] in multiset(t);
      if t[j] != x {
        assert t[j] in multiset(s[1..]);
        var k :| 0 <= k < |s[1..]| && s[1..][k] == t[j];
        assert s[k + 1] == t[j];
      }
    }
  }

  /** `sorted(s, key=key)`: an ordered permutation of `s`. */
  function SortBy<T>(s: seq<T>, key: T -> string): (r: seq<T>)
    ensures SortedBy(r, key)
    ensures multiset(r) == multiset(s)
  {
    if s == [] then []
    else
      assert s == s[..|s| - 1] + [s[|s| - 1]];
      InsertBy(s[|s| - 1], SortBy(s[..|s| - 1], key), key)
  }

  function Identity(s: string): string { s }

  /** `sorted(s)` on strings. */
  function Sorted(s: seq<string>): (r: seq<string>)
    ensures SortedBy(r, Identity)
    ensures multiset(r) == multiset(s)
    ensures |r| == |s|
  {
    assert |multiset(SortBy(s, Identity))| == |multiset(s)|;
    SortBy(s, Identity)
  }

  /** The elements of `s` with repeats dropped; each element occurs once. */
  function Dedup(s: seq<string>): (r: seq<string>)
    ensures forall x :: x in r <==> x in s
    ensures forall x :: multiset(r)[x] == (if x in s then 1 else 0)
  {
    if s == [] then []
    else
      var t := Dedup(s[1..]);
      assert s == [s[0]] + s[1..];
      if s[0] in t then t else [s[0]] + t
  }

  lemma {:induction false} TwiceInMultiset(s: seq<string>, i: nat, j: nat)
    requires i < j < |s| && s[i] == s[j]
    ensures multiset(s)[s[i]] >= 2
  {
    assert s == s[..j] + s[j..];
    assert s[i] in s[..j];
    assert s[j..][0] == s[j];
    assert multiset(s) == multiset(s[..j]) + multiset(s[j..]);
  }

  /** `sorted(set(s))`: the distinct elements of `s` in ascending order. */
  function SortedUnique(s: seq<string>): (r: seq<string>)
    ensures StrictlySorted(r)
    ensures forall x :: x in r <==> x in s
  {
    var d := Dedup(s);
    var r := Sorted(d);
    assert forall x :: x in r <==> x in d by {
      forall x ensures x in r <==> x in d {
        assert x in r <==> x in multiset(r);
        assert x in d <==> x in multiset(d);
      }
    }
    assert StrictlySorted(r) by {
      forall i, j | 0 <= i < j < |r| ensures Lt(r[i], r[j]) {
        assert !Lt(r[j], r[i]);
        LtTotal(r[i], r[j]);
        if r[i] == r[j] {
          TwiceInMultiset(r, i, j);
          assert false;
        }
      }
    }
    r
  }
}
