/** The few Python string operations the scrapers rely on, on `seq<char>`:
    `s.replace(p, '')`, `s.split(sep)`, `s.split()`, `s.strip(chars)`,
    `str(n)` for integers and `int(s)`. */
module PyStr {
  import opened Wrappers

  type String = seq<char>

  // ---------------------------------------------------------------------
  // Occurrences of a pattern
  // ---------------------------------------------------------------------

  /** `p` occurs in `s` starting at index `i`. */
  predicate MatchAt(s: String, p: String, i: int) {
    0 <= i && i + |p| <= |s| && s[i..i + |p|] == p
  }

  /** `p in s` for strings. */
  predicate Contains(s: String, p: String) {
    exists i :: 0 <= i <= |s| && MatchAt(s, p, i)
  }

  lemma MatchShift(c: String, s: String, p: String, i: int)
    requires 0 <= i
    ensures MatchAt(c + s, p, |c| + i) <==> MatchAt(s, p, i)
  {
    if 0 <= i && i + |p| <= |s| {
      assert (c + s)[|c| + i..|c| + i + |p|] == s[i..i + |p|];
    }
  }

  /** A match at index `i` starts with the pattern's first character. */
  lemma MatchAtHead(s: String, p: String, i: int)
    requires |p| > 0 && MatchAt(s, p, i)
    ensures s[i] == p[0]
  {
    assert s[i..i + |p|][0] == s[i];
  }

  /** When the first character of `s` does not start a match, `s` and
      `s[1..]` contain the pattern alike. */
  lemma ContainsTail(s: String, p: String)
    requires |s| > 0 && !MatchAt(s, p, 0)
    ensures Contains(s, p) <==> Contains(s[1..], p)
  {
    assert s == [s[0]] + s[1..];
    if Contains(s, p) {
      var i :| 0 <= i <= |s| && MatchAt(s, p, i);
      assert i != 0;
      MatchShift([s[0]], s[1..], p, i - 1);
      assert MatchAt(s[1..], p, i - 1);
    }
    if Contains(s[1..], p) {
      var i :| 0 <= i <= |s[1..]| && MatchAt(s[1..], p, i);
      MatchShift([s[0]], s[1..], p, i);
      assert MatchAt(s, p, i + 1);
    }
  }

  // ---------------------------------------------------------------------
  // s.replace(p, '')
  // ---------------------------------------------------------------------

  /** Python's `s.replace(p, '')`: scanning left to right, every
      non-overlapping occurrence of `p` is dropped. */
  function RemoveAll(s: String, p: String): (r: String)
    requires |p| > 0
    ensures |r| <= |s|
    decreases |s|
  {
    if |s| == 0 then []
    else if MatchAt(s, p, 0) then RemoveAll(s[|p|..], p)
    else [s[0]] + RemoveAll(s[1..], p)
  }

  /** A string without an occurrence of `p` is left as it is. */
  lemma {:induction false} RemoveAllNoMatch(s: String, p: String)
    requires |p| > 0 && !Contains(s, p)
    ensures RemoveAll(s, p) == s
    decreases |s|
  {
    if |s| > 0 {
      assert !MatchAt(s, p, 0);
      ContainsTail(s, p);
      RemoveAllNoMatch(s[1..], p);
      assert s == [s[0]] + s[1..];
    }
  }

  /** A leading occurrence is removed. */
  lemma RemoveAllLeading(p: String, s: String)
    requires |p| > 0
    ensures RemoveAll(p + s, p) == RemoveAll(s, p)
  {
    assert (p + s)[0..|p|] == p;
    assert MatchAt(p + s, p, 0);
    assert (p + s)[|p|..] == s;
  }

  /** A first character that does not start an occurrence is kept. */
  lemma RemoveAllMiss(c: char, s: String, p: String)
    requires |p| > 0 && !MatchAt([c] + s, p, 0)
    ensures RemoveAll([c] + s, p) == [c] + RemoveAll(s, p)
  {
    assert ([c] + s)[1..] == s;
  }

  /** A prefix in which the pattern's first character never appears is
      kept verbatim. */
  lemma {:induction false} RemoveAllFreePrefix(t: String, s: String, p: String)
    requires |p| > 0
    requires forall i :: 0 <= i < |t| ==> t[i] != p[0]
    ensures RemoveAll(t + s, p) == t + RemoveAll(s, p)
    decreases |t|
  {
    if |t| > 0 {
      var u := t + s;
      assert u[0] == t[0];
      if MatchAt(u, p, 0) {
        MatchAtHead(u, p, 0);
      }
      assert u[1..] == t[1..] + s;
      RemoveAllFreePrefix(t[1..], s, p);
      assert t == [t[0]] + t[1..];
    } else {
      assert t + s == s;
    }
  }

  /** Removing an opening and then a closing tag from `open + t + close`
      gives back `t`, when `t` has no '<' and the closing tag does not
      contain the opening one. */
  lemma RemoveWrapped(open: String, t: String, close: String)
    requires |open| > 0 && |close| > 0 && open[0] == close[0]
    requires forall i :: 0 <= i < |t| ==> t[i] != open[0]
    requires !Contains(close, open)
    ensures RemoveAll(RemoveAll(open + t + close, open), close) == t
  {
    assert open + t + close == open + (t + close);
    RemoveAllLeading(open, t + close);
    RemoveAllFreePrefix(t, close, open);
    RemoveAllNoMatch(close, open);
    assert t + close == t + close + [];
    RemoveAllFreePrefix(t, close, close);
    assert close == close + [];
    RemoveAllLeading(close, []);
    assert t + [] == t;
  }

  /** `</x>` never contains `<x>` for a tag name `x` not starting with '/'. */
  lemma CloseTagFree(name: String)
    requires |name| > 0 && name[0] != '/'
    ensures !Contains("</" + name + ">", "<" + name + ">")
  {
    var close := "</" + name + ">";
    var open := "<" + name + ">";
    assert |close| == |open| + 1;
    forall i | 0 <= i <= |close| ensures !MatchAt(close, open, i) {
      if 0 <= i && i + |open| <= |close| {
        assert i == 0 || i == 1;
        assert close[i..i + |open|][0] == close[i];
        assert close[i..i + |open|][1] == close[i + 1];
        assert open[0] == '<' && open[1] == name[0];
        assert close[0] == '<' && close[1] == '/' && close[2] == name[0];
      }
    }
  }

  // ---------------------------------------------------------------------
  // s.split(sep) and sep.join(parts)
  // ---------------------------------------------------------------------

  /** Python's `s.split(sep)` for a non-empty separator: the pieces between
      the non-overlapping occurrences of `sep`, found left to right. */
  function Split(s: String, sep: String): (r: seq<String>)
    requires |sep| > 0
    ensures |r| >= 1
    decreases |s|
  {
    if |s| == 0 then [[]]
    else if MatchAt(s, sep, 0) then [[]] + Split(s[|sep|..], sep)
    else
      var rest := Split(s[1..], sep);
      [[s[0]] + rest[0]] + rest[1..]
  }

  /** With two or more pieces, the first piece ends where the first
      occurrence of the separator starts. */
  lemma {:induction false} SplitFirstPiece(s: String, sep: String)
    requires |sep| > 0 && |Split(s, sep)| >= 2
    ensures MatchAt(s, sep, |Split(s, sep)[0]|)
    ensures forall i :: 0 <= i < |Split(s, sep)[0]| ==> !MatchAt(s, sep, i)
    decreases |s|
  {
    if MatchAt(s, sep, 0) {
    } else {
      var rest := Split(s[1..], sep);
      SplitFirstPiece(s[1..], sep);
      assert s == [s[0]] + s[1..];
      MatchShift([s[0]], s[1..], sep, |rest[0]|);
      forall i | 0 <= i < |Split(s, sep)[0]| ensures !MatchAt(s, sep, i) {
        if i > 0 {
          MatchShift([s[0]], s[1..], sep, i - 1);
        }
      }
    }
  }

  /** The first piece is a prefix of the string. */
  lemma {:induction false} SplitFirstPrefix(s: String, sep: String)
    requires |sep| > 0
    ensures |Split(s, sep)[0]| <= |s| && Split(s, sep)[0] == s[..|Split(s, sep)[0]|]
    decreases |s|
  {
    if |s| > 0 && !MatchAt(s, sep, 0) {
      SplitFirstPrefix(s[1..], sep);
      var p := Split(s[1..], sep)[0];
      assert Split(s, sep)[0] == [s[0]] + p;
      assert s[..|p| + 1] == [s[0]] + s[1..][..|p|];
    }
  }

  /** Python's `sep.join(parts)`. */
  function Join(parts: seq<String>, sep: String): String {
    if |parts| == 0 then []
    else if |parts| == 1 then parts[0]
    else parts[0] + sep + Join(parts[1..], sep)
  }

  /** Joining the pieces with the separator gives back the string. */
  lemma {:induction false} JoinSplit(s: String, sep: String)
    requires |sep| > 0
    ensures Join(Split(s, sep), sep) == s
    decreases |s|
  {
    if |s| == 0 {
    } else if MatchAt(s, sep, 0) {
      var rest := Split(s[|sep|..], sep);
      assert Split(s, sep) == [[]] + rest;
      JoinSplit(s[|sep|..], sep);
      JoinCons([], rest, sep);
      assert s == sep + s[|sep|..];
    } else {
      var rest := Split(s[1..], sep);
      assert Split(s, sep) == [[s[0]] + rest[0]] + rest[1..];
      JoinSplit(s[1..], sep);
      JoinHead(s[0], rest, sep);
      assert s == [s[0]] + s[1..];
    }
  }

  lemma JoinCons(p: String, rest: seq<String>, sep: String)
    requires |rest| >= 1
    ensures Join([p] + rest, sep) == p + sep + Join(rest, sep)
  {
    assert ([p] + rest)[1..] == rest;
  }

  /** Prepending a character to the first part prepends it to the join. */
  lemma JoinHead(c: char, parts: seq<String>, sep: String)
    requires |parts| >= 1
    ensures Join([[c] + parts[0]] + parts[1..], sep) == [c] + Join(parts, sep)
  {
    if |parts| > 1 {
      JoinCons([c] + parts[0], parts[1..], sep);
      JoinCons(parts[0], parts[1..], sep);
      assert [parts[0]] + parts[1..] == parts;
    }
  }

  /** The split yields two or more pieces exactly when the separator
      occurs in the string. */
  lemma {:induction false} SplitContains(s: String, sep: String)
    requires |sep| > 0
    ensures |Split(s, sep)| >= 2 <==> Contains(s, sep)
    decreases |s|
  {
    if |s| == 0 {
    } else if MatchAt(s, sep, 0) {
    } else {
      SplitContains(s[1..], sep);
      ContainsTail(s, sep);
    }
  }

  /** Without an occurrence of the separator the split is the one piece
      `[s]`. */
  lemma SplitNoMatch(s: String, sep: String)
    requires |sep| > 0 && !Contains(s, sep)
    ensures Split(s, sep) == [s]
  {
    SplitContains(s, sep);
    JoinSplit(s, sep);
  }

  /** When the first occurrence of `sep` in `a + sep + b` is the one after
      `a`, the first piece is `a` and the rest is the split of `b`. */
  lemma {:induction false} SplitAtFirst(a: String, sep: String, b: String)
    requires |sep| > 0
    requires forall i :: 0 <= i < |a| ==> !MatchAt(a + sep + b, sep, i)
    ensures Split(a + sep + b, sep) == [a] + Split(b, sep)
    decreases |a|
  {
    var s := a + sep + b;
    if |a| == 0 {
      assert s == sep + b;
      assert s[0..|sep|] == sep;
      assert s[|sep|..] == b;
    } else {
      assert !MatchAt(s, sep, 0);
      var s' := a[1..] + sep + b;
      assert s[1..] == s';
      assert s == [a[0]] + s';
      forall i | 0 <= i < |a[1..]| ensures !MatchAt(s', sep, i) {
        MatchShift([a[0]], s', sep, i);
      }
      SplitAtFirst(a[1..], sep, b);
      assert [a[0]] + a[1..] == a;
    }
  }

  /** A one-character separator that occurs in no piece splits the joined
      string back into the pieces. */
  lemma {:induction false} SplitJoinChar(parts: seq<String>, c: char)
    requires |parts| >= 1
    requires forall k :: 0 <= k < |parts| ==> c !in parts[k]
    ensures Split(Join(parts, [c]), [c]) == parts
    decreases |parts|
  {
    if |parts| == 1 {
      NoCharNoMatch(parts[0], c);
      SplitNoMatch(parts[0], [c]);
    } else {
      var s := parts[0] + [c] + Join(parts[1..], [c]);
      forall i | 0 <= i < |parts[0]| ensures !MatchAt(s, [c], i) {
        assert s[i] == parts[0][i];
        assert s[i..i + 1][0] == s[i];
      }
      SplitAtFirst(parts[0], [c], Join(parts[1..], [c]));
      SplitJoinChar(parts[1..], c);
      assert [parts[0]] + parts[1..] == parts;
    }
  }

  lemma NoCharNoMatch(s: String, c: char)
    requires c !in s
    ensures !Contains(s, [c])
  {
    if Contains(s, [c]) {
      var i :| MatchAt(s, [c], i);
      MatchAtHead(s, [c], i);
    }
  }

  /** Every part followed by the terminator: the shape of the
      `data += field + ','` lines of the location scraper. */
  function Terminated(parts: seq<String>, term: String): String {
    if |parts| == 0 then [] else parts[0] + term + Terminated(parts[1..], term)
  }

  lemma TerminatedCons(p: String, ps: seq<String>, term: String)
    ensures Terminated([p] + ps, term) == p + term + Terminated(ps, term)
  {
    assert ([p] + ps)[1..] == ps;
  }

  /** Appending a field appends it and its terminator to the row. */
  lemma {:induction false} TerminatedSnoc(parts: seq<String>, p: String, term: String)
    ensures Terminated(parts + [p], term) == Terminated(parts, term) + p + term
    decreases |parts|
  {
    if |parts| == 0 {
      assert [] + [p] == [p];
      assert Terminated([p], term) == p + term + [];
    } else {
      var t := Terminated(parts[1..], term);
      assert (parts + [p])[1..] == parts[1..] + [p];
      TerminatedSnoc(parts[1..], p, term);
      assert parts[0] + term + (t + p + term) == parts[0] + term + t + p + term;
    }
  }

  lemma {:induction false} TerminatedIsJoin(parts: seq<String>, term: String)
    ensures Terminated(parts, term) == Join(parts + [[]], term)
    decreases |parts|
  {
    if |parts| > 0 {
      TerminatedIsJoin(parts[1..], term);
      assert (parts + [[]])[1..] == parts[1..] + [[]];
    }
  }

  /** A comma-terminated row of comma-free fields splits on ',' into the
      fields and one empty trailing piece. */
  lemma TerminatedSplit(parts: seq<String>)
    requires forall k :: 0 <= k < |parts| ==> ',' !in parts[k]
    ensures Split(Terminated(parts, ","), ",") == parts + [[]]
  {
    TerminatedIsJoin(parts, ",");
    SplitJoinChar(parts + [[]], ',');
  }

  // ---------------------------------------------------------------------
  // s.split() on whitespace
  // ---------------------------------------------------------------------

  /** Python's notion of a whitespace character for `str`. */
  predicate IsSpace(c: char) {
    c == ' ' || ('\t' <= c <= '\r') || ('\U{1C}' <= c <= '\U{1F}')
    || c == '\U{85}' || c == '\U{A0}' || c == '\U{1680}'
    || ('\U{2000}' <= c <= '\U{200A}') || c == '\U{2028}' || c == '\U{2029}'
    || c == '\U{202F}' || c == '\U{205F}' || c == '\U{3000}'
  }

  /** A token of `s.split()`: non-empty and free of whitespace. */
  predicate IsWord(w: String) {
    |w| > 0 && forall i :: 0 <= i < |w| ==> !IsSpace(w[i])
  }

  predicate IsBlank(s: String) {
    forall i :: 0 <= i < |s| ==> IsSpace(s[i])
  }

  /** Length of the maximal whitespace-free run at the start of `s`. */
  function TokenLen(s: String): (n: nat)
    ensures n <= |s|
    ensures forall i :: 0 <= i < n ==> !IsSpace(s[i])
    ensures n == |s| || IsSpace(s[n])
  {
    if |s| == 0 || IsSpace(s[0]) then 0 else 1 + TokenLen(s[1..])
  }

  /** Length of the whitespace at the start of `s`. */
  function LeadLen(s: String): (n: nat)
    ensures n <= |s|
    ensures forall i :: 0 <= i < n ==> IsSpace(s[i])
    ensures n == |s| || !IsSpace(s[n])
  {
    if |s| == 0 || !IsSpace(s[0]) then 0 else 1 + LeadLen(s[1..])
  }

  /** Python's `s.split()`: the maximal whitespace-free runs, in order. */
  function Words(s: String): (r: seq<String>)
    ensures forall k :: 0 <= k < |r| ==> IsWord(r[k])
    decreases |s|
  {
    if |s| == 0 then []
    else if IsSpace(s[0]) then Words(s[1..])
    else
      var n := TokenLen(s);
      [s[..n]] + Words(s[n..])
  }

  /** A string has no tokens exactly when it is blank. */
  lemma {:induction false} WordsEmptyIffBlank(s: String)
    ensures Words(s) == [] <==> IsBlank(s)
    decreases |s|
  {
    if |s| > 0 {
      WordsEmptyIffBlank(s[1..]);
      if IsSpace(s[0]) {
        if IsBlank(s[1..]) {
          forall i | 0 <= i < |s| ensures IsSpace(s[i]) {
            if i > 0 { assert s[i] == s[1..][i - 1]; }
          }
        }
        if IsBlank(s) {
          forall i | 0 <= i < |s[1..]| ensures IsSpace(s[1..][i]) {
            assert s[1..][i] == s[i + 1];
          }
        }
      }
    }
  }

  /** The first token is the maximal whitespace-free run after the leading
      whitespace. */
  lemma {:induction false} FirstWord(s: String)
    requires Words(s) != []
    ensures LeadLen(s) < |s|
    ensures Words(s)[0] == s[LeadLen(s)..][..TokenLen(s[LeadLen(s)..])]
    decreases |s|
  {
    if IsSpace(s[0]) {
      FirstWord(s[1..]);
      assert s[1..][LeadLen(s[1..])..] == s[LeadLen(s)..];
    } else {
      assert s[0..] == s;
    }
  }

  lemma {:induction false} TokenLenOfWord(w: String, rest: String)
    requires IsWord(w)
    requires rest == [] || IsSpace(rest[0])
    ensures TokenLen(w + rest) == |w|
    decreases |w|
  {
    var s := w + rest;
    assert s[0] == w[0];
    if |w| > 1 {
      assert s[1..] == w[1..] + rest;
      TokenLenOfWord(w[1..], rest);
    } else {
      assert s[1..] == rest;
    }
  }

  /** A token followed by whitespace and more text. */
  lemma WordsCons(w: String, c: char, rest: String)
    requires IsWord(w) && IsSpace(c)
    ensures Words(w + [c] + rest) == [w] + Words(rest)
  {
    var s := w + [c] + rest;
    assert s == w + ([c] + rest);
    TokenLenOfWord(w, [c] + rest);
    assert s[..|w|] == w;
    assert s[|w|..] == [c] + rest;
    assert ([c] + rest)[1..] == rest;
  }

  lemma WordsOfWord(w: String)
    requires IsWord(w)
    ensures Words(w) == [w]
  {
    TokenLenOfWord(w, []);
    assert w + [] == w;
    assert w[..|w|] == w;
  }

  /** Tokens joined by single spaces split back into the same tokens. */
  lemma {:induction false} WordsJoin(ws: seq<String>)
    requires forall k :: 0 <= k < |ws| ==> IsWord(ws[k])
    ensures Words(Join(ws, " ")) == ws
    decreases |ws|
  {
    if |ws| == 1 {
      WordsOfWord(ws[0]);
    } else if |ws| > 1 {
      WordsCons(ws[0], ' ', Join(ws[1..], " "));
      WordsJoin(ws[1..]);
      assert [ws[0]] + ws[1..] == ws;
    }
  }

  // ---------------------------------------------------------------------
  // s.strip(chars)
  // ---------------------------------------------------------------------

  /** Drops the leading characters satisfying `drop`. */
  function LStrip(s: String, drop: char -> bool): (r: String)
    ensures |r| <= |s| && r == s[|s| - |r|..]
    ensures r == [] || !drop(r[0])
  {
    if |s| == 0 || !drop(s[0]) then s else LStrip(s[1..], drop)
  }

  /** What `LStrip` removes satisfies `drop`. */
  lemma {:induction false} LStripDrops(s: String, drop: char -> bool)
    ensures forall i :: 0 <= i < |s| - |LStrip(s, drop)| ==> drop(s[i])
    decreases |s|
  {
    if |s| > 0 && drop(s[0]) {
      LStripDrops(s[1..], drop);
      forall i | 1 <= i < |s| - |LStrip(s, drop)| ensures drop(s[i]) {
        assert s[i] == s[1..][i - 1];
      }
    }
  }

  /** Drops the trailing characters satisfying `drop`. */
  function RStrip(s: String, drop: char -> bool): (r: String)
    ensures |r| <= |s| && r == s[..|r|]
    ensures r == [] || !drop(r[|r| - 1])
  {
    if |s| == 0 || !drop(s[|s| - 1]) then s else RStrip(s[..|s| - 1], drop)
  }

  /** What `RStrip` removes satisfies `drop`. */
  lemma {:induction false} RStripDrops(s: String, drop: char -> bool)
    ensures forall i :: |RStrip(s, drop)| <= i < |s| ==> drop(s[i])
    decreases |s|
  {
    if |s| > 0 && drop(s[|s| - 1]) {
      RStripDrops(s[..|s| - 1], drop);
      forall i | |RStrip(s, drop)| <= i < |s| - 1 ensures drop(s[i]) {
        assert s[i] == s[..|s| - 1][i];
      }
    }
  }

  /** Python's `s.strip(...)`: both ends. */
  function Strip(s: String, drop: char -> bool): String {
    RStrip(LStrip(s, drop), drop)
  }

  /** Where the part kept by `strip` starts. */
  function StripStart(s: String, drop: char -> bool): (i: nat)
    ensures i <= |s|
  {
    |s| - |LStrip(s, drop)|
  }

  /** `strip` keeps a contiguous middle part of `s`, and what it removes on
      either side satisfies `drop`. */
  lemma StripInfix(s: String, drop: char -> bool)
    ensures StripStart(s, drop) + |Strip(s, drop)| <= |s|
    ensures s[StripStart(s, drop)..StripStart(s, drop) + |Strip(s, drop)|] == Strip(s, drop)
    ensures forall k :: 0 <= k < StripStart(s, drop) ==> drop(s[k])
    ensures forall k :: StripStart(s, drop) + |Strip(s, drop)| <= k < |s| ==> drop(s[k])
  {
    var l := LStrip(s, drop);
    var r := RStrip(l, drop);
    var i := StripStart(s, drop);
    assert Strip(s, drop) == r;
    assert l == s[i..];
    assert i + |r| <= |s|;
    assert forall k :: 0 <= k < i ==> drop(s[k]) by {
      LStripDrops(s, drop);
    }
    assert s[i..i + |r|] == r by {
      assert r == l[..|r|];
    }
    assert forall k :: i + |r| <= k < |s| ==> drop(s[k]) by {
      RStripDrops(l, drop);
      DropsShifted(s, i, |r|, drop);
    }
  }

  lemma DropsShifted(s: String, i: nat, n: nat, drop: char -> bool)
    requires i + n <= |s|
    requires forall j :: n <= j < |s[i..]| ==> drop(s[i..][j])
    ensures forall k :: i + n <= k < |s| ==> drop(s[k])
  {
    forall k | i + n <= k < |s| ensures drop(s[k]) {
      assert s[k] == s[i..][k - i];
    }
  }

  /** The result of `strip` neither starts nor ends with a character it
      drops. */
  lemma StripEnds(s: String, drop: char -> bool)
    ensures var r := Strip(s, drop); r == [] || (!drop(r[0]) && !drop(r[|r| - 1]))
  {
    var l := LStrip(s, drop);
    var r := RStrip(l, drop);
    if r != [] {
      assert r[0] == l[0];
    }
  }

  /** A string whose ends are not stripped is unchanged. */
  lemma StripKeeps(s: String, drop: char -> bool)
    requires s == [] || (!drop(s[0]) && !drop(s[|s| - 1]))
    ensures Strip(s, drop) == s
  {
  }

  /** Stripping keeps the first character when it is not stripped. */
  lemma StripKeepsHead(s: String, drop: char -> bool)
    requires |s| > 0 && !drop(s[0])
    ensures |Strip(s, drop)| > 0 && Strip(s, drop)[0] == s[0]
  {
    assert LStrip(s, drop) == s;
    RStripDrops(s, drop);
  }

  // ---------------------------------------------------------------------
  // str(n) and int(s)
  // ---------------------------------------------------------------------

  predicate IsDigit(c: char) { '0' <= c <= '9' }

  function DigitChar(d: nat): (c: char)
    requires d < 10
    ensures IsDigit(c)
  {
    ('0' as int + d) as char
  }

  function DigitValue(c: char): nat {
    if IsDigit(c) then c as int - '0' as int else 0
  }

  /** Python's `str(n)` for `n >= 0`: decimal digits, most significant first,
      no leading zero. */
  function NatToString(n: nat): (r: String)
    ensures |r| >= 1 && IsDigit(r[|r| - 1])
  {
    if n < 10 then [DigitChar(n)] else NatToString(n / 10) + [DigitChar(n % 10)]
  }

  /** Every character of `str(n)` is a decimal digit. */
  lemma {:induction false} NatToStringDigits(n: nat)
    ensures forall i :: 0 <= i < |NatToString(n)| ==> IsDigit(NatToString(n)[i])
  {
    if n >= 10 {
      NatToStringDigits(n / 10);
      var h := NatToString(n / 10);
      assert NatToString(n) == h + [DigitChar(n % 10)];
    }
  }

  /** Python's `str(n)` for any integer. */
  function IntToString(n: int): (r: String)
    ensures |r| >= 1 && IsDigit(r[|r| - 1])
  {
    if n < 0 then "-" + NatToString(-n) else NatToString(n)
  }

  /** The digits of an `int` literal, where single underscores may separate
      digits (`int('1_000') == 1000`). */
  predicate ValidDigits(d: String)
    decreases |d|
  {
    |d| > 0 && IsDigit(d[0])
    && (|d| == 1 || ValidDigits(d[1..]) || (d[1] == '_' && ValidDigits(d[2..])))
  }

  /** The value of a digit string, underscores ignored. */
  function DigitsValue(d: String): nat {
    if |d| == 0 then 0
    else if d[|d| - 1] == '_' then DigitsValue(d[..|d| - 1])
    else 10 * DigitsValue(d[..|d| - 1]) + DigitValue(d[|d| - 1])
  }

  /** The whitespace `int` skips around its digits: that of `str.split()`
      except the four information separators U+001C to U+001F. */
  predicate IsIntSpace(c: char) {
    IsSpace(c) && !('\U{1C}' <= c <= '\U{1F}')
  }

  /** Python's `int(s)` on a string: surrounding whitespace, an optional
      sign, then digits; `None` where Python raises ValueError. */
  function ParseInt(s: String): Option<int> {
    ParseStripped(Strip(s, IsIntSpace))
  }

  /** `int` once the surrounding whitespace is gone. */
  function ParseStripped(t: String): Option<int> {
    if |t| > 0 && (t[0] == '+' || t[0] == '-') then
      if ValidDigits(t[1..]) then
        var v: int := DigitsValue(t[1..]);
        Some(if t[0] == '-' then -v else v)
      else None
    else if ValidDigits(t) then Some(DigitsValue(t))
    else None
  }

  lemma {:induction false} AllDigitsValid(d: String)
    requires |d| > 0 && forall i :: 0 <= i < |d| ==> IsDigit(d[i])
    ensures ValidDigits(d)
    decreases |d|
  {
    if |d| > 1 {
      AllDigitsValid(d[1..]);
    }
  }

  /** A valid digit string has only digits and underscores, starts and ends
      with a digit, and never has two underscores in a row. */
  lemma {:induction false} ValidDigitsShape(d: String)
    requires ValidDigits(d)
    ensures IsDigit(d[0]) && IsDigit(d[|d| - 1])
    ensures forall i :: 0 <= i < |d| ==> IsDigit(d[i]) || d[i] == '_'
    ensures !Contains(d, "__")
    decreases |d|
  {
    if |d| > 1 {
      var k := if ValidDigits(d[1..]) then 1 else 2;
      var e := d[k..];
      ValidDigitsShape(e);
      assert d[|d| - 1] == e[|e| - 1];
      forall i | k <= i < |d| ensures IsDigit(d[i]) || d[i] == '_' {
        assert d[i] == e[i - k];
      }
      forall i | 0 <= i <= |d| ensures !MatchAt(d, "__", i) {
        if i + 2 <= |d| {
          assert d[i..i + 2][0] == d[i] && d[i..i + 2][1] == d[i + 1];
          if i >= k {
            assert d[i..i + 2] == e[i - k..i - k + 2];
            assert !MatchAt(e, "__", i - k);
          } else if i == 1 {
            assert e[0] == d[k];
          }
        }
      }
    }
  }

  lemma {:induction false} DigitsValueOfNat(n: nat)
    ensures DigitsValue(NatToString(n)) == n
  {
    if n >= 10 {
      var s := NatToString(n);
      DigitsValueOfNat(n / 10);
      assert s[..|s| - 1] == NatToString(n / 10);
    }
  }

  /** A surrounding-whitespace check that only looks at the two ends. */
  lemma DigitsNotStripped(d: String)
    requires |d| > 0 && IsDigit(d[0]) && IsDigit(d[|d| - 1])
    ensures Strip(d, IsIntSpace) == d
  {
    assert !IsIntSpace(d[0]) && !IsIntSpace(d[|d| - 1]);
    StripKeeps(d, IsIntSpace);
  }

  /** `int(d)` on a plain string of decimal digits is their value. */
  lemma ParseIntOfDigits(d: String)
    requires |d| > 0 && forall i :: 0 <= i < |d| ==> IsDigit(d[i])
    ensures ParseInt(d) == Some(DigitsValue(d))
  {
    var t := Strip(d, IsIntSpace);
    assert t == d by { DigitsNotStripped(d); }
    assert ValidDigits(t) by { AllDigitsValid(d); }
    assert !(t[0] == '+' || t[0] == '-');
  }

  /** Whitespace that `str.split()` skips is not all skipped by `int`: an
      information separator before the digits makes it raise, a space does
      not. */
  lemma IntSpaceNarrower()
    ensures IsSpace('\U{1C}') && !IsIntSpace('\U{1C}')
    ensures ParseInt("\U{1C}5") == None
    ensures ParseInt(" 5") == Some(5)
  {
    SeparatorNotSkipped();
    SpaceSkipped();
  }

  lemma SeparatorNotSkipped()
    ensures ParseInt("\U{1C}5") == None
  {
    var s: String := "\U{1C}5";
    assert Strip(s, IsIntSpace) == s by {
      assert !IsIntSpace(s[0]) && !IsIntSpace(s[|s| - 1]);
      StripKeeps(s, IsIntSpace);
    }
    assert !IsDigit(s[0]);
  }

  lemma SpaceSkipped()
    ensures ParseInt(" 5") == Some(5)
  {
    SpaceThenDigit(' ', '5');
    assert [' ', '5'] == " 5";
  }

  /** `int` of one skipped space and one digit is the digit's value. */
  lemma SpaceThenDigit(c: char, d: char)
    requires IsIntSpace(c) && IsDigit(d)
    ensures ParseInt([c, d]) == Some(DigitValue(d))
  {
    var t: String := [d];
    assert Strip([c, d], IsIntSpace) == t by {
      assert [c, d] == [c] + t;
      LStripLeading(c, t, IsIntSpace);
      DigitNotSpace(d);
      StripKeeps(t, IsIntSpace);
    }
    assert ParseStripped(t) == Some(DigitValue(d)) by {
      assert !(t[0] == '+' || t[0] == '-');
      assert ValidDigits(t);
      assert t[..|t| - 1] == [];
      assert DigitsValue(t) == DigitValue(d);
    }
  }

  lemma DigitNotSpace(d: char)
    requires IsDigit(d)
    ensures !IsIntSpace(d)
  {
  }

  /** A leading dropped character goes. */
  lemma LStripLeading(c: char, s: String, drop: char -> bool)
    requires drop(c)
    ensures LStrip([c] + s, drop) == LStrip(s, drop)
  {
    assert ([c] + s)[1..] == s;
  }

  /** `int(str(n)) == n` for every `n >= 0`. */
  lemma ParseIntToString(n: nat)
    ensures ParseInt(IntToString(n)) == Some(n)
  {
    NatToStringDigits(n);
    DigitsValueOfNat(n);
    ParseIntOfDigits(IntToString(n));
  }

  /** Powers of ten. */
  function Pow10(k: nat): (r: nat)
    ensures r >= 1
  {
    if k == 0 then 1 else 10 * Pow10(k - 1)
  }

  /** `str(n)` has more than `k` digits exactly when `n >= 10^k`. */
  lemma {:induction false} NatToStringLength(n: nat, k: nat)
    requires k >= 1
    ensures |NatToString(n)| > k <==> n >= Pow10(k)
    decreases k
  {
    if k > 1 && n >= 10 {
      NatToStringLength(n / 10, k - 1);
    } else if k > 1 {
      assert Pow10(k) == 10 * Pow10(k - 1);
    }
  }
}
