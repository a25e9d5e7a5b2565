/**
 * The JavaScript string built-ins the extension relies on, stated over
 * Dafny strings: `trim`, `trimStart`, `trimEnd`, `replaceAll` of one
 * character, and `split` on a one-character separator (with its inverse,
 * joining with that separator).
 *
 * Character counts are written `multiset(s)[c]`.
 */
module JsString {

  /** The characters JavaScript's `trim`, `trimStart`, `trimEnd` and the
      regular-expression class `\s` treat as white space: the WhiteSpace
      and LineTerminator code points of ECMAScript (tab, line tabulation,
      form feed, space, no-break space, byte order mark, the other
      space separators, line feed, carriage return, line and paragraph
      separators). */
  predicate IsWs(c: char) {
    || c == '\t' || c == '\n' || c == '\U{000B}' || c == '\U{000C}' || c == '\r'
    || c == ' ' || c == '\U{00A0}' || c == '\U{1680}'
    || ('\U{2000}' <= c <= '\U{200A}')
    || c == '\U{2028}' || c == '\U{2029}' || c == '\U{202F}' || c == '\U{205F}'
    || c == '\U{3000}' || c == '\U{FEFF}'
  }

  /** The first index at or after `i` whose character is not white space, or `|s|`. */
  function SkipWs(s: string, i: nat): (j: nat)
    requires i <= |s|
    ensures i <= j <= |s|
    decreases |s| - i
  {
    if i < |s| && IsWs(s[i]) then SkipWs(s, i + 1) else i
  }

  /** The index just past the last character before `j` that is not white space, or 0. */
  function SkipWsBack(s: string, j: nat): (i: nat)
    requires j <= |s|
    ensures i <= j
  {
    if j > 0 && IsWs(s[j - 1]) then SkipWsBack(s, j - 1) else j
  }

  /** `SkipWs` passes over white space only and stops at text or at the end. */
  lemma {:induction false} SkipWsStops(s: string, i: nat)
    requires i <= |s|
    ensures forall k :: i <= k < SkipWs(s, i) ==> IsWs(s[k])
    ensures SkipWs(s, i) == |s| || !IsWs(s[SkipWs(s, i)])
    decreases |s| - i
  {
    if i < |s| && IsWs(s[i]) {
      SkipWsStops(s, i + 1);
    }
  }

  /** `SkipWsBack` passes over white space only and stops after text or at 0;
      it is the only index below `j` that does. */
  lemma {:induction false} SkipWsBackStops(s: string, j: nat)
    requires j <= |s|
    ensures forall k :: SkipWsBack(s, j) <= k < j ==> IsWs(s[k])
    ensures SkipWsBack(s, j) == 0 || !IsWs(s[SkipWsBack(s, j) - 1])
  {
    if j > 0 && IsWs(s[j - 1]) {
      SkipWsBackStops(s, j - 1);
    }
  }

  /** An index `l` at or after `i` with only white space from `i` to `l`
      and text (or the end) at `l` is where `SkipWs` stops. */
  lemma {:induction false} SkipWsUnique(s: string, i: nat, l: nat)
    requires i <= l <= |s|
    requires forall k :: i <= k < l ==> IsWs(s[k])
    requires l == |s| || !IsWs(s[l])
    ensures SkipWs(s, i) == l
    decreases l - i
  {
    if i < l {
      SkipWsUnique(s, i + 1, l);
    }
  }

  /** The length of the white-space run `s` starts with. */
  function LeadingWs(s: string): nat {
    SkipWs(s, 0)
  }

  /** The length of `s` without the white-space run it ends with. */
  function TextEnd(s: string): nat {
    SkipWsBack(s, |s|)
  }

  /** `s.trimStart()` */
  function TrimStart(s: string): string {
    s[LeadingWs(s)..]
  }

  /** `s.trimEnd()` */
  function TrimEnd(s: string): string {
    s[..TextEnd(s)]
  }

  /** `s.trim()`: the part of `s` between its leading and its trailing white space. */
  function Trim(s: string): string {
    TrimEnd(TrimStart(s))
  }

  /** An index `e` at or below `j` with only white space from `e` to `j`
      and no white space just before it is where `SkipWsBack` stops. */
  lemma {:induction false} SkipWsBackUnique(s: string, j: nat, e: nat)
    requires e <= j <= |s|
    requires forall k :: e <= k < j ==> IsWs(s[k])
    requires e == 0 || !IsWs(s[e - 1])
    ensures SkipWsBack(s, j) == e
  {
    if j > e {
      SkipWsBackUnique(s, j - 1, e);
    }
  }

  /** The text end is the only index with white space after it and no
      white space just before it. */
  lemma TextEndUnique(s: string, e: nat)
    requires e <= |s|
    requires forall k :: e <= k < |s| ==> IsWs(s[k])
    requires e == 0 || !IsWs(s[e - 1])
    ensures TextEnd(s) == e
  {
    SkipWsBackUnique(s, |s|, e);
  }

  /** A string with some text is its leading white space, its trimmed text
      and its trailing white space; a blank one trims to nothing. */
  lemma TrimParts(s: string)
    ensures var l, e := LeadingWs(s), TextEnd(s);
      if l == |s| then e == 0 && Trim(s) == ""
      else
        && l < e
        && Trim(s) == s[l..e]
        && s == s[..l] + s[l..e] + s[e..]
        && !IsWs(s[l]) && !IsWs(s[e - 1])
  {
    var l, e := LeadingWs(s), TextEnd(s);
    SkipWsStops(s, 0);
    if l == |s| {
      SkipWsBackUnique(s, |s|, 0);
      assert TrimStart(s) == [];
    } else {
      SkipWsBackStops(s, |s|);
      assert !IsWs(s[l]);
      var t := s[l..];
      forall k | e - l <= k < |t|
        ensures IsWs(t[k])
      {
        assert t[k] == s[k + l];
      }
      assert t[e - l - 1] == s[e - 1];
      TextEndUnique(t, e - l);
      assert t[..e - l] == s[l..e];
      assert s == s[..l] + s[l..e] + s[e..];
    }
  }

  /** Trimming gives nothing exactly when the string is white space from start to end. */
  lemma TrimEmpty(s: string)
    ensures Trim(s) == "" <==> LeadingWs(s) == |s|
  {
    TrimParts(s);
  }

  /** Every character of `s` is white space exactly when its trimmed form is empty. */
  lemma BlankIffAllWs(s: string)
    ensures Trim(s) == "" <==> forall i :: 0 <= i < |s| ==> IsWs(s[i])
  {
    TrimEmpty(s);
    SkipWsStops(s, 0);
  }

  /** Trimming twice is trimming once. */
  lemma TrimIdempotent(s: string)
    ensures Trim(Trim(s)) == Trim(s)
  {
    TrimParts(s);
    var r := Trim(s);
    if r != "" {
      var l, e := LeadingWs(s), TextEnd(s);
      assert r[0] == s[l] && r[|r| - 1] == s[e - 1];
      assert LeadingWs(r) == 0;
      TextEndUnique(r, |r|);
      assert TrimStart(r) == r;
      assert TrimEnd(r) == r;
    }
  }

  /** What is absent from `s` is absent from `Trim(s)`. */
  lemma TrimKeepsAbsent(s: string, c: char)
    requires c !in s
    ensures c !in Trim(s)
  {
    TrimParts(s);
  }

  /** `s.replaceAll(c, "")`: `s` with every occurrence of `c` deleted, the
      other characters kept in order. */
  function RemoveAll(s: string, c: char): (r: string)
    ensures c !in r
  {
    if |s| == 0 then ""
    else
      assert s == [s[0]] + s[1..];
      (if s[0] == c then "" else [s[0]]) + RemoveAll(s[1..], c)
  }

  /** Deleting a character removes all its occurrences and keeps every
      other character as often as it was. */
  lemma {:induction false} RemoveAllCounts(s: string, c: char)
    ensures multiset(RemoveAll(s, c)) == multiset(s)[c := 0]
  {
    if |s| > 0 {
      RemoveAllCounts(s[1..], c);
      var head := if s[0] == c then "" else [s[0]];
      assert RemoveAll(s, c) == head + RemoveAll(s[1..], c);
      assert multiset(RemoveAll(s, c)) == multiset(head) + multiset(RemoveAll(s[1..], c));
      assert s == [s[0]] + s[1..];
      assert multiset(s) == multiset{s[0]} + multiset(s[1..]);
    }
  }

  /** Deleting a character brings in no new character. */
  lemma {:induction false} RemoveAllKeepsAbsent(s: string, c: char, x: char)
    requires x !in s
    ensures x !in RemoveAll(s, c)
  {
    if |s| > 0 {
      assert x !in s[1..];
      RemoveAllKeepsAbsent(s[1..], c, x);
    }
  }

  /** Deleting a character commutes with concatenation. */
  lemma {:induction false} RemoveAllAppend(a: string, b: string, c: char)
    ensures RemoveAll(a + b, c) == RemoveAll(a, c) + RemoveAll(b, c)
  {
    if |a| > 0 {
      assert (a + b)[1..] == a[1..] + b;
      RemoveAllAppend(a[1..], b, c);
    } else {
      assert a + b == b;
    }
  }

  /** Deleting a character that does not occur changes nothing. */
  lemma {:induction false} RemoveAllAbsent(s: string, c: char)
    requires c !in s
    ensures RemoveAll(s, c) == s
  {
    if |s| > 0 {
      assert c !in s[1..];
      RemoveAllAbsent(s[1..], c);
    }
  }

  /** `s.split(sep)` for a one-character separator: n separators give
      n + 1 pieces, empty pieces included, none of them holding `sep`. */
  function Split(s: string, sep: char): (pieces: seq<string>)
    ensures |pieces| > 0
    ensures forall i :: 0 <= i < |pieces| ==> sep !in pieces[i]
  {
    if |s| == 0 then [""]
    else
      assert s == [s[0]] + s[1..];
      var rest := Split(s[1..], sep);
      if s[0] == sep then [""] + rest
      else [[s[0]] + rest[0]] + rest[1..]
  }

  /** `pieces.join(sep)` */
  function Join(pieces: seq<string>, sep: string): string {
    if |pieces| == 0 then ""
    else if |pieces| == 1 then pieces[0]
    else pieces[0] + sep + Join(pieces[1..], sep)
  }

  /** A character absent from `s` is absent from every piece of its split. */
  lemma {:induction false} SplitKeepsAbsent(s: string, sep: char, c: char)
    requires c !in s
    ensures forall i :: 0 <= i < |Split(s, sep)| ==> c !in Split(s, sep)[i]
  {
    if |s| > 0 {
      assert c !in s[1..];
      SplitKeepsAbsent(s[1..], sep, c);
    }
  }

  /** Splitting on a separator that occurs n times gives n + 1 pieces. */
  lemma {:induction false} SplitCount(s: string, sep: char)
    ensures |Split(s, sep)| == multiset(s)[sep] + 1
  {
    if |s| > 0 {
      SplitCount(s[1..], sep);
      assert s == [s[0]] + s[1..];
    }
  }

  /** Joining one more piece puts one separator before it. */
  lemma {:induction false} JoinSnoc(pieces: seq<string>, last: string, sep: string)
    requires |pieces| > 0
    ensures Join(pieces + [last], sep) == Join(pieces, sep) + sep + last
  {
    if |pieces| > 1 {
      assert (pieces + [last])[1..] == pieces[1..] + [last];
      JoinSnoc(pieces[1..], last, sep);
    }
  }

  /** Joining the pieces of a split gives back the string. */
  lemma {:induction false} JoinSplit(s: string, sep: char)
    ensures Join(Split(s, sep), [sep]) == s
  {
    if |s| > 0 {
      var rest := Split(s[1..], sep);
      JoinSplit(s[1..], sep);
      assert s == [s[0]] + s[1..];
      if s[0] == sep {
        var r := [""] + rest;
        assert Split(s, sep) == r;
        assert r[1..] == rest;
        assert Join(r, [sep]) == "" + [sep] + Join(rest, [sep]);
      } else {
        var r := [[s[0]] + rest[0]] + rest[1..];
        assert Split(s, sep) == r;
        if |rest| > 1 {
          assert r[1..] == rest[1..];
          assert Join(rest, [sep]) == rest[0] + [sep] + Join(rest[1..], [sep]);
          assert Join(r, [sep]) == [s[0]] + rest[0] + [sep] + Join(rest[1..], [sep]);
        }
      }
    }
  }

  /** Splitting a join of separator-free pieces gives back the pieces. */
  lemma {:induction false} SplitJoin(pieces: seq<string>, sep: char)
    requires |pieces| > 0
    requires forall i :: 0 <= i < |pieces| ==> sep !in pieces[i]
    ensures Split(Join(pieces, [sep]), sep) == pieces
  {
    if |pieces| == 1 {
      SplitNoSep(pieces[0], sep);
    } else {
      SplitJoin(pieces[1..], sep);
      SplitPrefix(pieces[0], Join(pieces[1..], [sep]), sep);
      assert pieces == [pieces[0]] + pieces[1..];
    }
  }

  /** A string without the separator splits into itself alone. */
  lemma {:induction false} SplitNoSep(s: string, sep: char)
    requires sep !in s
    ensures Split(s, sep) == [s]
  {
    if |s| > 0 {
      assert sep !in s[1..];
      SplitNoSep(s[1..], sep);
      assert [s[0]] + s[1..] == s;
    }
  }

  /** A first piece without the separator comes off before the rest. */
  lemma {:induction false} SplitPrefix(a: string, b: string, sep: char)
    requires sep !in a
    ensures Split(a + [sep] + b, sep) == [a] + Split(b, sep)
  {
    if |a| > 0 {
      assert (a + [sep] + b)[1..] == a[1..] + [sep] + b;
      assert sep !in a[1..];
      SplitPrefix(a[1..], b, sep);
      assert [a[0]] + a[1..] == a;
    } else {
      assert a + [sep] + b == [sep] + b;
      assert ([sep] + b)[1..] == b;
    }
  }
}
