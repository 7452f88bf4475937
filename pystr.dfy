/**
 * The Python string builtins the sign compiler relies on, over ASCII:
 * character classes (`isalpha`, `isalnum`, `isspace`), `lower`, `capitalize`,
 * `split()` with no separator, `endswith`, the `in` substring test, and
 * `posixpath.join` for two components.
 */
module PyStr {

  predicate IsUpper(c: char) { 'A' <= c <= 'Z' }
  predicate IsLower(c: char) { 'a' <= c <= 'z' }

  /** `str.isalpha` on one character */
  predicate IsAlpha(c: char) { IsUpper(c) || IsLower(c) }

  predicate IsDigit(c: char) { '0' <= c <= '9' }

  /** `str.isalnum` on one character */
  predicate IsAlnum(c: char) { IsAlpha(c) || IsDigit(c) }

  /** `str.isspace` on one character: space, \t \n \v \f \r and the separators 0x1C to 0x1F */
  predicate IsSpace(c: char) { c == ' ' || '\t' <= c <= '\r' || 28 <= c as int <= 31 }

  function UpperChar(c: char): (u: char)
    ensures IsLower(c) ==> IsUpper(u) && u as int == c as int - 32
    ensures !IsLower(c) ==> u == c
  {
    if IsLower(c) then (c as int - 32) as char else c
  }

  function LowerChar(c: char): (l: char)
    ensures IsUpper(c) ==> IsLower(l) && l as int == c as int + 32
    ensures !IsUpper(c) ==> l == c
  {
    if IsUpper(c) then (c as int + 32) as char else c
  }

  /** `str.lower` */
  function Lower(s: string): (r: string)
    ensures |r| == |s|
    ensures forall i :: 0 <= i < |s| ==> r[i] == LowerChar(s[i])
  {
    if s == [] then [] else [LowerChar(s[0])] + Lower(s[1..])
  }

  /** `str.capitalize`: the first character upper-cased, every other one lower-cased */
  function Capitalize(s: string): (c: string)
  {
    if s == [] then [] else [UpperChar(s[0])] + Lower(s[1..])
  }

  lemma CapitalizeAt(s: string)
    ensures |Capitalize(s)| == |s|
    ensures |s| > 0 ==> Capitalize(s)[0] == UpperChar(s[0])
    ensures forall i :: 1 <= i < |s| ==> Capitalize(s)[i] == LowerChar(s[i])
  {
    if s != [] {
      forall i | 1 <= i < |s|
        ensures Capitalize(s)[i] == LowerChar(s[i])
      {
        assert Capitalize(s)[i] == Lower(s[1..])[i - 1];
        assert s[1..][i - 1] == s[i];
      }
    }
  }

  /** Two strings that agree up to letter case capitalize to the same string. */
  lemma CapitalizeIgnoresCase(a: string, b: string)
    requires Lower(a) == Lower(b)
    ensures Capitalize(a) == Capitalize(b)
  {
    assert |a| == |b|;
    CapitalizeAt(a);
    CapitalizeAt(b);
    forall i | 0 <= i < |a|
      ensures Capitalize(a)[i] == Capitalize(b)[i]
    {
      assert LowerChar(a[i]) == Lower(a)[i] == Lower(b)[i] == LowerChar(b[i]);
      if i == 0 {
        assert UpperChar(a[0]) == UpperChar(b[0]);
      }
    }
  }

  /** `capitalize` is idempotent. */
  lemma CapitalizeIdempotent(s: string)
    ensures Capitalize(Capitalize(s)) == Capitalize(s)
  {
    var c := Capitalize(s);
    CapitalizeAt(s);
    CapitalizeAt(c);
    forall i | 0 <= i < |s|
      ensures Capitalize(c)[i] == c[i]
    {
      if i == 0 {
        assert UpperChar(UpperChar(s[0])) == UpperChar(s[0]);
      } else {
        assert LowerChar(LowerChar(s[i])) == LowerChar(s[i]);
      }
    }
  }

  /** `lower` leaves a string without upper-case letters unchanged. */
  lemma LowerUnchanged(s: string)
    requires forall i :: 0 <= i < |s| ==> !IsUpper(s[i])
    ensures Lower(s) == s
  {
  }

  /** A string with no upper-case letter after its first capitalises by upper-casing its first character alone. */
  lemma CapitalizeFirst(s: string)
    requires s != [] && forall i :: 1 <= i < |s| ==> !IsUpper(s[i])
    ensures Capitalize(s) == [UpperChar(s[0])] + s[1..]
  {
    LowerUnchanged(s[1..]);
  }

  /** The elements of `s` that satisfy `p`, in order (a list comprehension with an `if`). */
  function Filter<T>(s: seq<T>, p: T -> bool): (r: seq<T>)
    ensures |r| <= |s|
    ensures forall i :: 0 <= i < |r| ==> p(r[i]) && r[i] in s
  {
    if s == [] then [] else (if p(s[0]) then [s[0]] else []) + Filter(s[1..], p)
  }

  lemma {:induction false} FilterAppend<T>(a: seq<T>, b: seq<T>, p: T -> bool)
    ensures Filter(a + b, p) == Filter(a, p) + Filter(b, p)
  {
    if a == [] {
      assert a + b == b;
    } else {
      assert (a + b)[1..] == a[1..] + b;
      FilterAppend(a[1..], b, p);
    }
  }

  /** Filtering a sequence all of whose elements pass leaves it unchanged. */
  lemma {:induction false} FilterKeepsAll<T>(s: seq<T>, p: T -> bool)
    requires forall i :: 0 <= i < |s| ==> p(s[i])
    ensures Filter(s, p) == s
  {
    if s != [] {
      FilterKeepsAll(s[1..], p);
    }
  }

  /** `f` applied to each element of `s`, in order (a list comprehension without an `if`). */
  function MapSeq<A, B>(f: A -> B, s: seq<A>): (r: seq<B>)
    ensures |r| == |s|
    ensures forall i :: 0 <= i < |s| ==> r[i] == f(s[i])
  {
    seq(|s|, i requires 0 <= i < |s| => f(s[i]))
  }

  lemma MapSeqAppend<A, B>(f: A -> B, a: seq<A>, b: seq<A>)
    ensures MapSeq(f, a + b) == MapSeq(f, a) + MapSeq(f, b)
  {
    var ra, rb := MapSeq(f, a), MapSeq(f, b);
    forall k | 0 <= k < |a| + |b|
      ensures MapSeq(f, a + b)[k] == (ra + rb)[k]
    {
      if k < |a| {
        assert (a + b)[k] == a[k];
      } else {
        assert (a + b)[k] == b[k - |a|];
      }
    }
  }

  lemma MapSeqDrop<A, B>(f: A -> B, s: seq<A>, i: nat)
    requires i < |s|
    ensures MapSeq(f, s[i..])[0] == f(s[i])
    ensures MapSeq(f, s[i..])[1..] == MapSeq(f, s[i + 1..])
  {
    var tail := MapSeq(f, s[i + 1..]);
    forall k | 0 <= k < |tail|
      ensures MapSeq(f, s[i..])[1..][k] == tail[k]
    {
      assert s[i..][k + 1] == s[i + 1..][k];
    }
  }

  /** The concatenation of a sequence of strings (`''.join(ss)`). */
  function Flatten<T>(ss: seq<seq<T>>): (joined: seq<T>)
  {
    if ss == [] then [] else ss[0] + Flatten(ss[1..])
  }

  predicate NotSpace(c: char) { !IsSpace(c) }

  /** Length of the run of non-whitespace characters that starts `s`. */
  function WordLength(s: string): (k: nat)
    ensures k <= |s|
    ensures forall i :: 0 <= i < k ==> !IsSpace(s[i])
    ensures k < |s| ==> IsSpace(s[k])
  {
    if s == [] || IsSpace(s[0]) then 0 else 1 + WordLength(s[1..])
  }

  /** `str.split()` with no separator: the maximal runs of non-whitespace characters, in order. */
  function Split(s: string): (words: seq<string>)
    decreases |s|
  {
    if s == [] then []
    else if IsSpace(s[0]) then Split(s[1..])
    else
      var k := WordLength(s);
      [s[..k]] + Split(s[k..])
  }

  /** Every word `split` yields is non-empty, holds no whitespace, and is made of characters of `s`. */
  lemma {:induction false} SplitWords(s: string)
    ensures forall w :: w in Split(s) ==> w != [] && forall i :: 0 <= i < |w| ==> !IsSpace(w[i]) && w[i] in s
    decreases |s|
  {
    if s == [] {
    } else if IsSpace(s[0]) {
      SplitWords(s[1..]);
    } else {
      var k := WordLength(s);
      SplitWords(s[k..]);
      forall w | w in Split(s)
        ensures w != [] && forall i :: 0 <= i < |w| ==> !IsSpace(w[i]) && w[i] in s
      {
        if w != s[..k] {
          assert w in Split(s[k..]);
          forall i | 0 <= i < |w| ensures w[i] in s {
            assert w[i] in s[k..];
          }
        } else {
          forall i | 0 <= i < |w| ensures w[i] in s {
            assert w[i] == s[i];
          }
        }
      }
    }
  }

  /** Joining the words back together gives `s` with its whitespace deleted: nothing is lost or reordered. */
  lemma {:induction false} SplitFlatten(s: string)
    ensures Flatten(Split(s)) == Filter(s, NotSpace)
    decreases |s|
  {
    if s == [] {
    } else if IsSpace(s[0]) {
      SplitFlatten(s[1..]);
    } else {
      var k := WordLength(s);
      SplitFlatten(s[k..]);
      var ws := [s[..k]] + Split(s[k..]);
      assert ws[1..] == Split(s[k..]);
      assert Flatten(ws) == s[..k] + Flatten(Split(s[k..]));
      FilterKeepsAll(s[..k], NotSpace);
      FilterAppend(s[..k], s[k..], NotSpace);
      assert s[..k] + s[k..] == s;
    }
  }

  /** `' '.join(ws)` */
  function JoinWords(ws: seq<string>): (joined: string)
  {
    if ws == [] then [] else if |ws| == 1 then ws[0] else ws[0] + " " + JoinWords(ws[1..])
  }

  lemma {:induction false} WordLengthOfWord(w: string, rest: string)
    requires forall i :: 0 <= i < |w| ==> !IsSpace(w[i])
    requires rest == [] || IsSpace(rest[0])
    ensures WordLength(w + rest) == |w|
    decreases |w|
  {
    if w != [] {
      assert (w + rest)[1..] == w[1..] + rest;
      WordLengthOfWord(w[1..], rest);
    }
  }

  /** `split` undoes `' '.join` on a list of non-empty words without whitespace. */
  lemma {:induction false} SplitJoinWords(ws: seq<string>)
    requires forall j :: 0 <= j < |ws| ==> ws[j] != [] && forall i :: 0 <= i < |ws[j]| ==> !IsSpace(ws[j][i])
    ensures Split(JoinWords(ws)) == ws
  {
    if ws == [] {
    } else if |ws| == 1 {
      var w := ws[0];
      WordLengthOfWord(w, []);
      assert w + [] == w;
      assert w[|w|..] == [];
    } else {
      var w := ws[0];
      var rest := " " + JoinWords(ws[1..]);
      var s := w + rest;
      assert s == JoinWords(ws);
      WordLengthOfWord(w, rest);
      assert s[..|w|] == w;
      assert s[|w|..] == rest;
      SplitJoinWords(ws[1..]);
      assert Split(rest) == Split(JoinWords(ws[1..]));
    }
  }

  /** Leading whitespace, however long, yields no word. */
  lemma {:induction false} SplitSkipsSpace(sep: string, t: string)
    requires forall i :: 0 <= i < |sep| ==> IsSpace(sep[i])
    ensures Split(sep + t) == Split(t)
    decreases |sep|
  {
    if sep == [] {
      assert sep + t == t;
    } else {
      assert (sep + t)[1..] == sep[1..] + t;
      SplitSkipsSpace(sep[1..], t);
    }
  }

  /**
   * Any non-empty run of whitespace ends a word: space, tab, newline, or several
   * of them, so the word before it comes out whole and the run adds nothing.
   */
  lemma SplitAtSeparator(w: string, sep: string, t: string)
    requires w != [] && forall i :: 0 <= i < |w| ==> !IsSpace(w[i])
    requires sep != [] && forall i :: 0 <= i < |sep| ==> IsSpace(sep[i])
    ensures Split(w + sep + t) == [w] + Split(t)
  {
    var s := w + (sep + t);
    assert w + sep + t == s;
    WordLengthOfWord(w, sep + t);
    assert s[..|w|] == w;
    assert s[|w|..] == sep + t;
    SplitSkipsSpace(sep, t);
  }

  /** A tab and a double space separate words like a single space does. */
  lemma SplitTabAndDoubleSpace()
    ensures Split("a\tb") == ["a", "b"]
    ensures Split("a  b") == ["a", "b"]
  {
    assert "a\tb" == "a" + "\t" + "b";
    assert "a  b" == "a" + "  " + "b";
    SplitAtSeparator("a", "\t", "b");
    SplitAtSeparator("a", "  ", "b");
    WordLengthOfWord("b", []);
    assert "b" + [] == "b";
  }

  predicate StartsWith(s: string, prefix: string) { |prefix| <= |s| && s[..|prefix|] == prefix }

  /** `str.endswith` */
  predicate EndsWith(s: string, suffix: string) { |suffix| <= |s| && s[|s| - |suffix|..] == suffix }

  lemma EndsWithTail(s: string, a: string, b: string)
    requires EndsWith(s, a + b)
    ensures EndsWith(s, b)
  {
    assert s[|s| - |b|..] == s[|s| - |a + b|..][|a|..];
  }

  /** Python's `sub in text`: `sub` occurs somewhere in `text` as a contiguous substring. */
  predicate Contains(text: string, sub: string)
    decreases |text|
  {
    StartsWith(text, sub) || (text != [] && Contains(text[1..], sub))
  }

  /** `sub` occurs in `text` starting at index `i`. */
  predicate OccursAt(text: string, sub: string, i: int)
  {
    0 <= i <= |text| - |sub| && text[i..i + |sub|] == sub
  }

  /** `Contains` agrees with "some slice of `text` equals `sub`". */
  lemma {:induction false} ContainsIff(text: string, sub: string)
    ensures Contains(text, sub) <==> exists i :: OccursAt(text, sub, i)
    decreases |text|
  {
    if StartsWith(text, sub) {
      assert OccursAt(text, sub, 0);
    }
    if text != [] {
      ContainsIff(text[1..], sub);
      if Contains(text[1..], sub) {
        var i :| OccursAt(text[1..], sub, i);
        assert text[i + 1..i + 1 + |sub|] == text[1..][i..i + |sub|];
        assert OccursAt(text, sub, i + 1);
      }
    }
    forall i | OccursAt(text, sub, i)
      ensures Contains(text, sub)
    {
      if i > 0 {
        assert text[1..][i - 1..i - 1 + |sub|] == text[i..i + |sub|];
        assert OccursAt(text[1..], sub, i - 1);
      }
    }
  }

  /** A substring with a character that does not occur in `text` is not contained in it. */
  lemma NotContainsMissingChar(text: string, sub: string, j: nat)
    requires j < |sub| && sub[j] !in text
    ensures !Contains(text, sub)
  {
    ContainsIff(text, sub);
    forall i | 0 <= i <= |text| - |sub|
      ensures !OccursAt(text, sub, i)
    {
      assert text[i + j] in text;
      assert text[i..i + |sub|][j] == text[i + j];
    }
  }

  /** `posixpath.join(a, b)` */
  function PathJoin(a: string, b: string): (path: string)
  {
    if StartsWith(b, "/") then b
    else if a == [] || EndsWith(a, "/") then a + b
    else a + "/" + b
  }

  /** Joining onto a directory that ends in "/" appends a relative component as it is. */
  lemma PathJoinUnderDir(a: string, b: string)
    requires EndsWith(a, "/") && b != [] && b[0] != '/'
    ensures PathJoin(a, b) == a + b
  {
    assert b[..1] == [b[0]];
  }

  /** The joined path ends with its last component, and starts with the first unless the last is absolute. */
  lemma PathJoinEnds(a: string, b: string)
    ensures EndsWith(PathJoin(a, b), b)
    ensures !StartsWith(b, "/") ==> StartsWith(PathJoin(a, b), a)
  {
  }
}
