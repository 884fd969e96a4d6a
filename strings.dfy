/** Byte strings as the store keeps them (a C++ std::string is a sequence of
    bytes), and the small text operations the command parser is built from:
    the "C"-locale character classes, upper-casing, trimming, stream
    extraction of a word, line and comma splitting. */
module Strings {
  import opened Wrappers

  /** One C++ `char`: a character whose code fits in a byte. */
  type Char8 = c: char | c as int < 256 witness ' '

  /** A C++ std::string. */
  type Str = seq<Char8>

  /** std::isspace in the "C" locale: space, \t, \n, \v, \f and \r. */
  predicate IsSpace(c: char) {
    c == ' ' || 9 <= c as int <= 13
  }

  /** std::isdigit */
  predicate IsDigit(c: char) {
    '0' <= c <= '9'
  }

  predicate IsLower(c: char) {
    'a' <= c <= 'z'
  }

  /** ::toupper in the "C" locale: only a-z change. */
  function UpperChar(c: Char8): (u: Char8)
    ensures !IsLower(u)
    ensures IsSpace(u) <==> IsSpace(c)
    ensures !IsLower(c) ==> u == c
    ensures IsLower(c) ==> u as int == c as int - 32
  {
    if IsLower(c) then (c as int - 32) as char else c
  }

  /** toUpper (CRT.cpp:34-38): std::transform with ::toupper. */
  function ToUpper(s: Str): (r: Str)
    ensures |r| == |s|
    ensures forall i :: 0 <= i < |s| ==> r[i] == UpperChar(s[i])
  {
    if s == [] then [] else [UpperChar(s[0])] + ToUpper(s[1..])
  }

  /** Upper-casing twice changes nothing more than upper-casing once. */
  lemma ToUpperIdempotent(s: Str)
    ensures ToUpper(ToUpper(s)) == ToUpper(s)
  {
  }

  predicate AllSpace(s: Str) {
    forall i :: 0 <= i < |s| ==> IsSpace(s[i])
  }

  /** The number of white-space characters at the front. */
  function LeadingSpace(s: Str): (n: nat)
    ensures n <= |s|
    ensures forall i :: 0 <= i < n ==> IsSpace(s[i])
    ensures n == |s| || !IsSpace(s[n])
  {
    if s == [] || !IsSpace(s[0]) then 0 else 1 + LeadingSpace(s[1..])
  }

  /** The number of white-space characters at the back. */
  function TrailingSpace(s: Str): (n: nat)
    ensures n <= |s|
    ensures forall i :: |s| - n <= i < |s| ==> IsSpace(s[i])
    ensures n == |s| || !IsSpace(s[|s| - 1 - n])
  {
    if s == [] || !IsSpace(s[|s| - 1]) then 0 else 1 + TrailingSpace(s[..|s| - 1])
  }

  /** trim (CRT.cpp:40-52): white space removed at both ends. The original
      steps an iterator before the beginning of an empty string; here the
      empty string trims to itself. */
  function Trim(s: Str): (r: Str)
    ensures |r| <= |s|
    ensures r == [] <==> AllSpace(s)
    ensures r == [] || (!IsSpace(r[0]) && !IsSpace(r[|r| - 1]))
    ensures s == [] || (!IsSpace(s[0]) && !IsSpace(s[|s| - 1])) ==> r == s
    ensures !AllSpace(s) ==>
              LeadingSpace(s) + TrailingSpace(s) < |s| && r == s[LeadingSpace(s)..|s| - TrailingSpace(s)]
  {
    var i := LeadingSpace(s);
    if i == |s| then []
    else
      var j := TrailingSpace(s);
      assert !AllSpace(s) by {
        assert !IsSpace(s[i]);
      }
      assert s[0..|s|] == s;
      s[i..|s| - j]
  }

  /** Trimming a trimmed string changes nothing. */
  lemma TrimIdempotent(s: Str)
    ensures Trim(Trim(s)) == Trim(s)
  {
  }

  /** Trimming removes exactly the white space around a word: whatever
      white space surrounds a string that starts and ends with other
      characters, trimming gives that string back. */
  lemma {:induction false} TrimSurrounded(before: Str, x: Str, after: Str)
    requires AllSpace(before) && AllSpace(after)
    requires x != [] && !IsSpace(x[0]) && !IsSpace(x[|x| - 1])
    ensures Trim(before + x + after) == x
  {
    var s := before + x + after;
    LeadingSpaceAt(s, |before|);
    TrailingSpaceAt(s, |after|);
    assert !IsSpace(s[|before|]);
    assert s[|before|..|s| - |after|] == x;
  }

  lemma {:induction false} LeadingSpaceAt(s: Str, n: nat)
    requires n < |s| && AllSpace(s[..n]) && !IsSpace(s[n])
    ensures LeadingSpace(s) == n
  {
    if n > 0 {
      assert s[0] == s[..n][0];
      assert s[1..][..n - 1] == s[1..n];
      assert forall i :: 0 <= i < n - 1 ==> s[1..n][i] == s[..n][i + 1];
      LeadingSpaceAt(s[1..], n - 1);
    }
  }

  lemma {:induction false} TrailingSpaceAt(s: Str, n: nat)
    requires n < |s| && AllSpace(s[|s| - n..]) && !IsSpace(s[|s| - 1 - n])
    ensures TrailingSpace(s) == n
  {
    if n > 0 {
      var t := s[..|s| - 1];
      assert s[|s| - 1] == s[|s| - n..][n - 1];
      var tail := t[|t| - (n - 1)..];
      forall i | 0 <= i < |tail|
        ensures IsSpace(tail[i])
      {
        assert tail[i] == s[|s| - n..][i];
      }
      TrailingSpaceAt(t, n - 1);
    }
  }

  /** Length of the longest prefix of `s` free of white space. */
  function TokenLength(s: Str): (n: nat)
    ensures n <= |s|
    ensures forall i :: 0 <= i < n ==> !IsSpace(s[i])
    ensures n == |s| || IsSpace(s[n])
  {
    if s == [] || IsSpace(s[0]) then 0 else 1 + TokenLength(s[1..])
  }

  /** `stream >> word` on a std::istringstream: skip white space, then take
      the longest run of non-space characters. The second component is what
      the stream still holds. When nothing is left the word is empty. */
  function Scan(s: Str): (res: (Str, Str))
    ensures forall i :: 0 <= i < |res.0| ==> !IsSpace(res.0[i])
    ensures res.0 == [] <==> AllSpace(s)
    ensures res.0 == [] ==> res.1 == []
    ensures |res.0| + |res.1| <= |s| && s[|s| - |res.0| - |res.1|..] == res.0 + res.1
    ensures res.1 == [] || IsSpace(res.1[0])
    ensures AllSpace(s[..|s| - |res.0| - |res.1|])
  {
    var t := s[LeadingSpace(s)..];
    var n := TokenLength(t);
    assert t == t[..n] + t[n..];
    (t[..n], t[n..])
  }

  /** A word preceded by white space and followed by white space (or
      nothing) is read as that word, and the stream keeps what follows. */
  lemma {:induction false} ScanWord(ws: Str, w: Str, rest: Str)
    requires AllSpace(ws)
    requires w != [] && forall i :: 0 <= i < |w| ==> !IsSpace(w[i])
    requires rest == [] || IsSpace(rest[0])
    ensures Scan(ws + w + rest) == (w, rest)
  {
    var s := ws + w + rest;
    LeadingSpaceAt(s, |ws|);
    var t := s[|ws|..];
    assert t == w + rest;
    TokenLengthAt(t, |w|);
    assert t[..|w|] == w && t[|w|..] == rest;
  }

  /** Two words with white space around and between them: trimming keeps
      them and what lies between, and two reads give the two words. */
  lemma TwoWords(ws1: Str, a: Str, ws2: Str, b: Str, ws3: Str)
    requires AllSpace(ws1) && AllSpace(ws3)
    requires ws2 != [] && AllSpace(ws2)
    requires a != [] && forall i :: 0 <= i < |a| ==> !IsSpace(a[i])
    requires b != [] && forall i :: 0 <= i < |b| ==> !IsSpace(b[i])
    ensures var d := Trim(ws1 + (a + ws2 + b) + ws3);
            d == a + ws2 + b && Scan(d) == (a, ws2 + b) && Scan(ws2 + b) == (b, [])
  {
    var head := a + ws2;
    var d := head + b;
    assert d[0] == head[0] == a[0];
    assert d[|head| + |b| - 1] == b[|b| - 1];
    TrimSurrounded(ws1, d, ws3);
    ScanTwoWords(a, ws2, b);
  }

  lemma ScanTwoWords(a: Str, ws2: Str, b: Str)
    requires ws2 != [] && AllSpace(ws2)
    requires a != [] && forall i :: 0 <= i < |a| ==> !IsSpace(a[i])
    requires b != [] && forall i :: 0 <= i < |b| ==> !IsSpace(b[i])
    ensures Scan(a + ws2 + b) == (a, ws2 + b) && Scan(ws2 + b) == (b, [])
  {
    assert a + ws2 + b == [] + a + (ws2 + b);
    ScanWord([], a, ws2 + b);
    assert ws2 + b == ws2 + b + [];
    ScanWord(ws2, b, []);
  }

  lemma {:induction false} TokenLengthAt(s: Str, n: nat)
    requires n <= |s| && (forall i :: 0 <= i < n ==> !IsSpace(s[i])) && (n == |s| || IsSpace(s[n]))
    ensures TokenLength(s) == n
  {
    if n > 0 {
      TokenLengthAt(s[1..], n - 1);
    }
  }

  /** First position of `c` in `s`, or |s| when there is none. */
  function IndexOf(s: Str, c: char): (i: nat)
    ensures i <= |s|
    ensures forall j :: 0 <= j < i ==> s[j] != c
    ensures i < |s| ==> s[i] == c
  {
    if s == [] || s[0] == c then 0 else 1 + IndexOf(s[1..], c)
  }

  /** std::getline(stream, line): everything up to the first newline. */
  function Line(s: Str): (r: Str)
    ensures r <= s
    ensures '\n' !in r
    ensures '\n' !in s ==> r == s
    ensures |r| < |s| ==> s[|r|] == '\n'
  {
    s[..IndexOf(s, '\n')]
  }

  /** Splitting at every comma, keeping every piece, empty ones included:
      the reference the getline loop is compared with. */
  function SplitAll(s: Str): (parts: seq<Str>)
    ensures |parts| >= 1
    ensures forall p :: p in parts ==> ',' !in p
    decreases |s|
  {
    var i := IndexOf(s, ',');
    if i == |s| then [s] else [s[..i]] + SplitAll(s[i + 1..])
  }

  /** The inverse of SplitAll. */
  function JoinComma(parts: seq<Str>): Str
    requires |parts| >= 1
  {
    if |parts| == 1 then parts[0] else parts[0] + [','] + JoinComma(parts[1..])
  }

  /** Joining the pieces back with commas gives the original string. */
  lemma {:induction false} JoinSplitAll(s: Str)
    ensures JoinComma(SplitAll(s)) == s
    decreases |s|
  {
    var i := IndexOf(s, ',');
    if i < |s| {
      JoinSplitAll(s[i + 1..]);
      assert s == s[..i] + [','] + s[i + 1..];
    }
  }

  /** `while (std::getline(stream, piece, ','))`: the pieces between commas,
      where getline fails (and the loop stops) once nothing is left, so an
      empty string gives no piece and a trailing empty piece is dropped. */
  function SplitComma(s: Str): (fields: seq<Str>)
    ensures forall f :: f in fields ==> ',' !in f
    ensures fields == [] <==> s == []
    decreases |s|
  {
    if s == [] then []
    else
      var i := IndexOf(s, ',');
      if i == |s| then [s] else [s[..i]] + SplitComma(s[i + 1..])
  }

  /** The getline loop yields exactly SplitAll's pieces, minus a last piece
      that is empty. */
  lemma {:induction false} SplitCommaDropsEmptyTail(s: Str)
    ensures var parts := SplitAll(s);
            SplitComma(s) == if parts[|parts| - 1] == [] then parts[..|parts| - 1] else parts
    decreases |s|
  {
    var i := IndexOf(s, ',');
    if s != [] && i < |s| {
      SplitCommaDropsEmptyTail(s[i + 1..]);
      var tail := SplitAll(s[i + 1..]);
      assert SplitAll(s) == [s[..i]] + tail;
      if tail[|tail| - 1] == [] {
        assert ([s[..i]] + tail)[..|tail|] == [s[..i]] + tail[..|tail| - 1];
      }
    }
  }

  /** The string with every '(' and ')' erased (std::remove + erase). */
  function RemoveParens(s: Str): (r: Str)
    ensures |r| <= |s|
    ensures forall c :: c in r <==> c in s && c != '(' && c != ')'
    ensures '(' !in s && ')' !in s ==> r == s
  {
    if s == [] then []
    else (if s[0] == '(' || s[0] == ')' then [] else [s[0]]) + RemoveParens(s[1..])
  }

  /** Erasing works piece by piece: the characters kept from a
      concatenation are those kept from each part, in order. */
  lemma {:induction false} RemoveParensAppend(a: Str, b: Str)
    ensures RemoveParens(a + b) == RemoveParens(a) + RemoveParens(b)
    decreases |a|
  {
    if a == [] {
      assert a + b == b;
    } else {
      RemoveParensFirst(a, b);
      RemoveParensAppend(a[1..], b);
      var kept: Str := if a[0] == '(' || a[0] == ')' then [] else [a[0]];
      ConcatAssociative(kept, RemoveParens(a[1..]), RemoveParens(b));
    }
  }

  lemma ConcatAssociative<T>(a: seq<T>, b: seq<T>, c: seq<T>)
    ensures a + b + c == a + (b + c)
  {
  }

  /** One step of the erasure: the first character of a non-empty string is
      decided on its own, with or without something after the string. */
  lemma RemoveParensFirst(a: Str, b: Str)
    requires a != []
    ensures var kept: Str := if a[0] == '(' || a[0] == ')' then [] else [a[0]];
            RemoveParens(a + b) == kept + RemoveParens(a[1..] + b) &&
            RemoveParens(a) == kept + RemoveParens(a[1..])
  {
    assert (a + b)[0] == a[0] && (a + b)[1..] == a[1..] + b;
  }

  /** Quote stripping used by INSERT, UPDATE and the WHERE evaluator: when
      the first and last characters are both '"', both are dropped. A lone
      '"' becomes empty: `substr(1, npos)` of a one-character string. */
  function StripQuotes(v: Str): (r: Str)
    ensures |v| >= 2 && v[0] == '"' && v[|v| - 1] == '"' ==> r == v[1..|v| - 1]
    ensures v == [] || v[0] != '"' || v[|v| - 1] != '"' ==> r == v
    ensures v == ['"'] ==> r == []
  {
    if |v| > 0 && v[0] == '"' && v[|v| - 1] == '"' then
      (if |v| >= 2 then v[1..|v| - 1] else [])
    else v
  }

  /** Quoting a string and stripping the quotes gives the string back. */
  lemma StripQuotesOfQuoted(x: Str)
    ensures StripQuotes(['"'] + x + ['"']) == x
  {
  }

  predicate OccursAt(s: Str, pat: Str, i: nat) {
    i + |pat| <= |s| && s[i..i + |pat|] == pat
  }

  /** std::string::find(pat, from): the first occurrence at or after `from`. */
  function Find(s: Str, pat: Str, from: nat): (r: Option<nat>)
    ensures r.Some? ==> from <= r.value && OccursAt(s, pat, r.value)
    ensures r.Some? ==> forall j: nat :: from <= j < r.value ==> !OccursAt(s, pat, j)
    ensures r.None? ==> forall j: nat :: from <= j ==> !OccursAt(s, pat, j)
    decreases |s| - from
  {
    if from + |pat| > |s| then None
    else if OccursAt(s, pat, from) then Some(from)
    else Find(s, pat, from + 1)
  }
}
