/** Small text utilities shared by the file server and the task board:
    option and result values, ASCII lower-casing, reading with universal
    newlines, and the `sep.join` /
    `str.split(sep)` pair of the source language. */
module Text {

  datatype Option<+T> = None | Some(value: T)

  datatype Result<+T, +E> = Ok(value: T) | Err(error: E)

  /** Lower-cases one character; only ASCII letters change. */
  function LowerChar(c: char): char {
    if 'A' <= c <= 'Z' then (c as int + 32) as char else c
  }

  /** `s.lower()` restricted to ASCII. */
  function Lower(s: string): (r: string)
    ensures |r| == |s|
    ensures forall i :: 0 <= i < |s| ==> r[i] == LowerChar(s[i])
  {
    if s == [] then [] else [LowerChar(s[0])] + Lower(s[1..])
  }

  /** Lower-casing twice is lower-casing once. */
  lemma LowerTwice(s: string)
    ensures Lower(Lower(s)) == Lower(s)
  {
    assert forall i :: 0 <= i < |s| ==> Lower(Lower(s))[i] == Lower(s)[i];
  }

  /** A text with no capital letters lower-cases to itself. */
  lemma LowerKeepsLowerCase(s: string)
    requires forall i :: 0 <= i < |s| ==> !('A' <= s[i] <= 'Z')
    ensures Lower(s) == s
  {
  }

  /** A text read in text mode with universal newlines, as `read_text` and
      `open(..., 'r')` return it: each `\r\n`, and then each `\r` left over,
      becomes `\n`. The result holds no `\r` and is no longer than the text. */
  function Universal(s: string): (r: string)
    ensures '\r' !in r
    ensures |r| <= |s|
    decreases |s|
  {
    if s == [] then []
    else if s[0] == '\r' && |s| > 1 && s[1] == '\n' then ['\n'] + Universal(s[2..])
    else if s[0] == '\r' then ['\n'] + Universal(s[1..])
    else [s[0]] + Universal(s[1..])
  }

  /** A text without `\r` reads back exactly as it is. */
  lemma {:induction false} UniversalKeepsPlain(s: string)
    requires '\r' !in s
    ensures Universal(s) == s
    decreases |s|
  {
    if s != [] {
      assert s[0] in s;
      assert forall c :: c in s[1..] ==> c in s;
      UniversalKeepsPlain(s[1..]);
    }
  }

  /** Reading a text that was already read changes nothing more. */
  lemma UniversalIdempotent(s: string)
    ensures Universal(Universal(s)) == Universal(s)
  {
    UniversalKeepsPlain(Universal(s));
  }

  /** Two texts read as one read as the two readings one after the other,
      unless the first ends in `\r` and the second starts with `\n`, in
      which case the pair is one line break. */
  lemma {:induction false} UniversalConcat(a: string, b: string)
    requires a == [] || a[|a| - 1] != '\r' || b == [] || b[0] != '\n'
    ensures Universal(a + b) == Universal(a) + Universal(b)
    decreases |a|
  {
    if a == [] {
      assert a + b == b;
    } else if |a| == 1 {
      UniversalSingle(a[0], b);
      assert a == [a[0]];
    } else {
      var k := if a[0] == '\r' && a[1] == '\n' then 2 else 1;
      UniversalStep(a, b, k);
      UniversalConcat(a[k..], b);
    }
  }

  /** One character before `b`, when it does not join with `b` into `\r\n`. */
  lemma UniversalSingle(c: char, b: string)
    requires c != '\r' || b == [] || b[0] != '\n'
    ensures Universal([c] + b) == Universal([c]) + Universal(b)
  {
    assert ([c] + b)[1..] == b;
    assert [c][1..] == [];
  }

  /** The first `k` characters of `a` are read on their own, whatever
      follows `a`. */
  lemma UniversalStep(a: string, b: string, k: nat)
    requires |a| >= 2
    requires k == if a[0] == '\r' && a[1] == '\n' then 2 else 1
    ensures Universal(a + b) == Universal(a[..k]) + Universal(a[k..] + b)
    ensures Universal(a) == Universal(a[..k]) + Universal(a[k..])
  {
    var ab := a + b;
    assert ab[0] == a[0] && ab[1] == a[1];
    assert ab[k..] == a[k..] + b;
    if k == 2 {
      assert a[..2] == ['\r', '\n'] && a[..2][2..] == [];
    } else {
      assert a[..1] == [a[0]] && a[..1][1..] == [];
    }
  }

  /** A `\r` at the end of one text and a `\n` at the start of the next read
      as one line break: `"a\r"` then `"\nb"` reads `"a\nb"`, not the two
      readings `"a\n"` and `"\nb"` one after the other. */
  lemma SplitLineBreak()
    ensures Universal("a\r" + "\nb") == "a\nb"
    ensures Universal("a\r") + Universal("\nb") == "a\n\nb"
  {
    assert "a\r" + "\nb" == "a\r\nb";
    assert "a\r\nb"[1..] == "\r\nb" && "\r\nb"[2..] == "b" && "b"[1..] == "";
    assert "a\r"[1..] == "\r" && "\r"[1..] == "";
    assert "\nb"[1..] == "b";
  }

  /** `sep.join(parts)`: the parts in order, one separator between
      neighbours, none before the first or after the last. */
  function JoinWith(parts: seq<string>, sep: char): string
  {
    if |parts| == 0 then []
    else if |parts| == 1 then parts[0]
    else parts[0] + [sep] + JoinWith(parts[1..], sep)
  }

  /** `s.split(sep)`: never empty; the parts never contain `sep`. */
  function Split(s: string, sep: char): (parts: seq<string>)
    ensures |parts| >= 1
    decreases |s|
  {
    if s == [] then [[]]
    else
      var rest := Split(s[1..], sep);
      if s[0] == sep then [[]] + rest
      else [[s[0]] + rest[0]] + rest[1..]
  }

  /** Joining one more part adds exactly one separator and then the part. */
  lemma {:induction false} JoinSnoc(parts: seq<string>, x: string, sep: char)
    requires |parts| >= 1
    ensures JoinWith(parts + [x], sep) == JoinWith(parts, sep) + [sep] + x
    decreases |parts|
  {
    if |parts| == 1 {
      assert parts + [x] == [parts[0], x];
      assert [parts[0], x][1..] == [x];
    } else {
      assert (parts + [x])[1..] == parts[1..] + [x];
      JoinSnoc(parts[1..], x, sep);
    }
  }

  /** The joined text is as long as its parts plus one separator per gap. */
  lemma {:induction false} JoinLength(parts: seq<string>, sep: char)
    requires |parts| >= 1
    ensures |JoinWith(parts, sep)| == TotalLength(parts) + |parts| - 1
    decreases |parts|
  {
    if |parts| > 1 {
      JoinLength(parts[1..], sep);
    }
  }

  function TotalLength(parts: seq<string>): nat {
    if parts == [] then 0 else |parts[0]| + TotalLength(parts[1..])
  }

  /** No part that `Split` returns contains the separator. */
  lemma {:induction false} SplitNoSep(s: string, sep: char)
    ensures forall i :: 0 <= i < |Split(s, sep)| ==> sep !in Split(s, sep)[i]
    decreases |s|
  {
    if s != [] {
      SplitNoSep(s[1..], sep);
    }
  }

  /** Splitting and joining back with the same separator gives the text back. */
  lemma {:induction false} SplitJoin(s: string, sep: char)
    ensures JoinWith(Split(s, sep), sep) == s
    decreases |s|
  {
    if s != [] {
      var rest := Split(s[1..], sep);
      SplitJoin(s[1..], sep);
      if s[0] == sep {
        assert ([[]] + rest)[1..] == rest;
      } else if |rest| == 1 {
        assert JoinWith(rest, sep) == rest[0];
      } else {
        var parts := [[s[0]] + rest[0]] + rest[1..];
        assert parts[1..] == rest[1..];
        assert JoinWith(rest, sep) == rest[0] + [sep] + JoinWith(rest[1..], sep);
      }
    }
  }

  /** A word without the separator, followed by the separator, splits off as one part. */
  lemma {:induction false} SplitWord(w: string, tail: string, sep: char)
    requires sep !in w
    ensures Split(w + [sep] + tail, sep) == [w] + Split(tail, sep)
    ensures Split(w, sep) == [w]
    decreases |w|
  {
    if w == [] {
      assert [] + [sep] + tail == [sep] + tail;
      assert ([sep] + tail)[1..] == tail;
    } else {
      assert (w + [sep] + tail)[1..] == w[1..] + [sep] + tail;
      SplitWord(w[1..], tail, sep);
      assert [w[0]] + w[1..] == w;
    }
  }

  /** Joining parts free of the separator and splitting again gives the parts back. */
  lemma {:induction false} JoinSplit(parts: seq<string>, sep: char)
    requires |parts| >= 1
    requires forall i :: 0 <= i < |parts| ==> sep !in parts[i]
    ensures Split(JoinWith(parts, sep), sep) == parts
    decreases |parts|
  {
    if |parts| == 1 {
      SplitWord(parts[0], [], sep);
    } else {
      JoinSplit(parts[1..], sep);
      SplitWord(parts[0], JoinWith(parts[1..], sep), sep);
      assert [parts[0]] + parts[1..] == parts;
    }
  }
}
