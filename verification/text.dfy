/** The optional value every module uses. */
module Wrappers {
  datatype Option<+T> = None | Some(value: T)
}

/**
 * The string built-ins the sources rely on, with JavaScript's behaviour:
 * String.prototype.trim, String.prototype.split on one character, and
 * the join that undoes that split.
 */
module Text {

  /** The code points trim removes: ECMAScript WhiteSpace and LineTerminator. */
  predicate IsSpace(c: char) {
    || c == '\t' || c == '\n' || c == '\U{000B}' || c == '\U{000C}' || c == '\r' || c == ' '
    || c == '\U{00A0}' || c == '\U{1680}' || ('\U{2000}' <= c <= '\U{200A}')
    || c == '\U{2028}' || c == '\U{2029}' || c == '\U{202F}' || c == '\U{205F}'
    || c == '\U{3000}' || c == '\U{FEFF}'
  }

  predicate AllSpace(s: string) {
    forall i :: 0 <= i < |s| ==> IsSpace(s[i])
  }

  /** Neither end of s is white space. */
  predicate IsTrimmed(s: string) {
    s == [] || (!IsSpace(s[0]) && !IsSpace(s[|s| - 1]))
  }

  /** s with its leading white space removed. */
  function TrimStart(s: string): (r: string)
    ensures |r| <= |s| && r == s[|s| - |r|..]
    ensures AllSpace(s[..|s| - |r|])
    ensures r == [] || !IsSpace(r[0])
  {
    if s != [] && IsSpace(s[0]) then
      var r := TrimStart(s[1..]);
      assert s[1..][|s| - 1 - |r|..] == s[|s| - |r|..];
      assert forall i :: 1 <= i < |s| - |r| ==> s[i] == s[1..][..|s| - 1 - |r|][i - 1];
      r
    else s
  }

  /** s with its trailing white space removed. */
  function TrimEnd(s: string): (r: string)
    ensures |r| <= |s| && r == s[..|r|]
    ensures AllSpace(s[|r|..])
    ensures r == [] || !IsSpace(r[|r| - 1])
  {
    if s != [] && IsSpace(s[|s| - 1]) then
      var r := TrimEnd(s[..|s| - 1]);
      assert s[..|s| - 1][..|r|] == s[..|r|];
      assert forall i :: |r| <= i < |s| - 1 ==> s[i] == s[..|s| - 1][|r|..][i - |r|];
      r
    else s
  }

  /** String.prototype.trim. */
  function Trim(s: string): (r: string)
    ensures IsTrimmed(r)
    ensures |r| <= |s|
    ensures forall c :: c in r ==> c in s
    ensures r == [] <==> AllSpace(s)
    ensures IsTrimmed(s) ==> r == s
  {
    TrimKeepsChars(s);
    TrimEmpty(s);
    TrimmedUnchanged(s);
    TrimEnd(TrimStart(s))
  }

  lemma TrimKeepsChars(s: string)
    ensures forall c :: c in TrimEnd(TrimStart(s)) ==> c in s
  {
    var t := TrimStart(s);
    var r := TrimEnd(t);
    assert forall c :: c in r ==> c in t;
    assert forall c :: c in t ==> c in s;
  }

  lemma TrimEmpty(s: string)
    ensures TrimEnd(TrimStart(s)) == [] <==> AllSpace(s)
  {
    var t := TrimStart(s);
    if TrimEnd(t) == [] {
      assert AllSpace(t[0..]);
      assert s == s[..|s| - |t|] + t;
    }
  }

  lemma TrimmedUnchanged(s: string)
    ensures IsTrimmed(TrimEnd(TrimStart(s)))
    ensures IsTrimmed(s) ==> TrimEnd(TrimStart(s)) == s
  {
    var t := TrimStart(s);
    var r := TrimEnd(t);
    if r != [] {
      assert r[0] == t[0];
    }
  }

  /** Trim applied to every element, keeping the order. */
  function TrimAll(xs: seq<string>): (r: seq<string>)
    ensures |r| == |xs|
    ensures forall k :: 0 <= k < |r| ==> r[k] == Trim(xs[k])
  {
    seq(|xs|, k requires 0 <= k < |xs| => Trim(xs[k]))
  }

  lemma TrimAllCons(x: string, xs: seq<string>)
    ensures TrimAll([x] + xs) == [Trim(x)] + TrimAll(xs)
  {
    assert forall k :: 0 < k <= |xs| ==> ([x] + xs)[k] == xs[k - 1];
  }

  lemma TrimAllAppend(a: seq<string>, b: seq<string>)
    ensures TrimAll(a + b) == TrimAll(a) + TrimAll(b)
  {
  }

  lemma TrimAllSnoc(xs: seq<string>, x: string)
    ensures TrimAll(xs + [x]) == TrimAll(xs) + [Trim(x)]
  {
    TrimAllAppend(xs, [x]);
  }

  /** Number of occurrences of c in s. */
  function Count(s: string, c: char): nat
  {
    if s == [] then 0 else (if s[0] == c then 1 else 0) + Count(s[1..], c)
  }

  /** String.prototype.split with a one-character separator. */
  function Split(s: string, sep: char): (r: seq<string>)
    ensures |r| == Count(s, sep) + 1
    ensures forall k :: 0 <= k < |r| ==> sep !in r[k]
    ensures forall k, c :: 0 <= k < |r| && c in r[k] ==> c in s
  {
    if s == [] then [""]
    else
      var tail := Split(s[1..], sep);
      assert forall c :: c in s[1..] ==> c in s;
      if s[0] == sep then
        var r := [""] + tail;
        assert forall k :: 1 <= k < |r| ==> r[k] == tail[k - 1];
        r
      else
        var r := [[s[0]] + tail[0]] + tail[1..];
        assert forall k :: 1 <= k < |r| ==> r[k] == tail[k];
        r
  }

  /** Array.prototype.join with a one-character separator. */
  function Join(pieces: seq<string>, sep: char): string
  {
    if pieces == [] then ""
    else if |pieces| == 1 then pieces[0]
    else pieces[0] + [sep] + Join(pieces[1..], sep)
  }

  /** Joining the pieces of a split gives back the split string. */
  lemma {:induction false} JoinSplit(s: string, sep: char)
    ensures Join(Split(s, sep), sep) == s
  {
    if s != [] {
      var tail := Split(s[1..], sep);
      JoinSplit(s[1..], sep);
      if s[0] == sep {
        assert Split(s, sep) == [""] + tail;
        assert ([""] + tail)[1..] == tail;
        assert s == [s[0]] + s[1..];
      } else {
        var r := Split(s, sep);
        assert r == [[s[0]] + tail[0]] + tail[1..];
        if |tail| == 1 {
          assert Join(r, sep) == [s[0]] + tail[0];
          assert s == [s[0]] + s[1..];
        } else {
          assert r[1..] == tail[1..];
          assert Join(tail, sep) == tail[0] + [sep] + Join(tail[1..], sep);
          assert s == [s[0]] + s[1..];
        }
      }
    }
  }

  /** Splitting a join of separator-free pieces gives back the pieces. */
  lemma {:induction false} SplitJoin(pieces: seq<string>, sep: char)
    requires |pieces| >= 1
    requires forall k :: 0 <= k < |pieces| ==> sep !in pieces[k]
    ensures Split(Join(pieces, sep), sep) == pieces
  {
    if |pieces| == 1 {
      SplitPlain(pieces[0], [], sep);
      assert pieces[0] + [] == pieces[0];
    } else {
      var rest := Join(pieces[1..], sep);
      SplitJoin(pieces[1..], sep);
      assert Split([sep] + rest, sep) == [""] + pieces[1..] by {
        assert ([sep] + rest)[1..] == rest;
      }
      SplitPlain(pieces[0], [sep] + rest, sep);
      assert pieces[0] + "" == pieces[0];
      assert Join(pieces, sep) == pieces[0] + ([sep] + rest);
      assert pieces == [pieces[0]] + pieces[1..];
    }
  }

  /** A separator-free prefix joins the first piece of the split of what follows. */
  lemma {:induction false} SplitPlain(p: string, t: string, sep: char)
    requires sep !in p
    ensures Split(p + t, sep) == [p + Split(t, sep)[0]] + Split(t, sep)[1..]
  {
    var st := Split(t, sep);
    if p == [] {
      assert p + t == t;
      assert p + st[0] == st[0];
    } else {
      assert (p + t)[1..] == p[1..] + t;
      SplitPlain(p[1..], t, sep);
      var tail := Split(p[1..] + t, sep);
      assert tail[0] == p[1..] + st[0];
      assert tail[1..] == st[1..];
      assert [p[0]] + (p[1..] + st[0]) == p + st[0];
    }
  }
}
