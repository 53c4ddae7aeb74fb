/**
 * The string operations the serializer leans on: the behaviour it takes from
 * `StringUtil.indent`, `StringUtil.join`, `String.replace`, `String.replaceFirst`
 * and `StringBuilder`. The definitions of `Indent` and `Join` are assumptions
 * (their code is not part of this model); each one is stated once here and the
 * lemmas below say what the rest of the model relies on.
 */
module Text {

  /** `n` blanks: the padding that one indentation step puts in front of a line. */
  function Spaces(n: nat): (r: string)
  {
    seq(n, _ => ' ')
  }

  /** `s` without its first `k` characters (empty when it is shorter). */
  function Drop(s: string, k: nat): (r: string)
    ensures |r| <= |s|
  {
    if |s| >= k then s[k..] else []
  }

  /** `s` with `pad` inserted after every line feed. */
  function PadLines(s: string, pad: string): (r: string)
  {
    if s == [] then ""
    else (if s[0] == '\n' then "\n" + pad else [s[0]]) + PadLines(s[1..], pad)
  }

  /**
   * `StringUtil.indent(s, n)`, taken to be: `n` spaces, then `s` with every
   * line feed replaced by a line feed and `n` spaces. So every line of `s`,
   * including an empty last line after a trailing line feed, gains the padding.
   */
  function Indent(s: string, n: nat): (r: string)
  {
    Spaces(n) + PadLines(s, Spaces(n))
  }

  /** Drops `n` characters after every line feed: the inverse of `PadLines`. */
  function UnpadLines(t: string, n: nat): (r: string)
    decreases |t|
  {
    if t == [] then ""
    else if t[0] == '\n' then "\n" + UnpadLines(Drop(t[1..], n), n)
    else [t[0]] + UnpadLines(t[1..], n)
  }

  /** Removes one indentation step of width `n` from every line. */
  function Outdent(t: string, n: nat): (r: string)
  {
    UnpadLines(Drop(t, n), n)
  }

  lemma {:induction false} UnpadPadLines(s: string, n: nat)
    ensures UnpadLines(PadLines(s, Spaces(n)), n) == s
  {
    if s != [] {
      var t := PadLines(s, Spaces(n));
      UnpadPadLines(s[1..], n);
      if s[0] == '\n' {
        assert t == "\n" + Spaces(n) + PadLines(s[1..], Spaces(n));
        assert Drop(t[1..], n) == PadLines(s[1..], Spaces(n));
      } else {
        assert t == [s[0]] + PadLines(s[1..], Spaces(n));
        assert t[1..] == PadLines(s[1..], Spaces(n));
      }
    }
  }

  /** Indenting loses nothing: outdenting by the same width gives the block back. */
  lemma IndentRoundTrip(s: string, n: nat)
    ensures Outdent(Indent(s, n), n) == s
  {
    assert Drop(Indent(s, n), n) == PadLines(s, Spaces(n));
    UnpadPadLines(s, n);
  }

  lemma {:induction false} PadLinesLineStart(s: string, pad: string, i: nat)
    requires '\n' !in pad
    requires i < |PadLines(s, pad)| && PadLines(s, pad)[i] == '\n'
    ensures i + 1 + |pad| <= |PadLines(s, pad)| && PadLines(s, pad)[i + 1..i + 1 + |pad|] == pad
  {
    var head := if s[0] == '\n' then "\n" + pad else [s[0]];
    var rest := PadLines(s[1..], pad);
    var t := PadLines(s, pad);
    assert t == head + rest;
    if i < |head| {
      assert head[i] == '\n';
      assert s[0] == '\n' && i == 0;
      assert t[1..1 + |pad|] == head[1..];
    } else {
      var k := i - |head|;
      assert rest[k] == t[i];
      PadLinesLineStart(s[1..], pad, k);
      assert t[i + 1..i + 1 + |pad|] == rest[k + 1..k + 1 + |pad|];
    }
  }

  /** Every line of an indented block starts with the padding: the first one and each one after a line feed. */
  lemma IndentLineStarts(s: string, n: nat)
    ensures var t := Indent(s, n);
      && t[..n] == Spaces(n)
      && forall i :: 0 <= i < |t| && t[i] == '\n' ==> i + 1 + n <= |t| && t[i + 1..i + 1 + n] == Spaces(n)
  {
    var t := Indent(s, n);
    var p := PadLines(s, Spaces(n));
    forall i | 0 <= i < |t| && t[i] == '\n'
      ensures i + 1 + n <= |t| && t[i + 1..i + 1 + n] == Spaces(n)
    {
      assert i >= n;
      assert p[i - n] == t[i];
      PadLinesLineStart(s, Spaces(n), i - n);
      assert t[i + 1..i + 1 + n] == p[i - n + 1..i - n + 1 + n];
    }
  }

  /** `StringUtil.join(parts, sep)`, taken to be the parts with `sep` between neighbours. */
  function Join(parts: seq<string>, sep: string): (r: string)
  {
    if |parts| == 0 then ""
    else if |parts| == 1 then parts[0]
    else parts[0] + sep + Join(parts[1..], sep)
  }

  /** The pieces of `s` between occurrences of `c`; the partner of `Join`. */
  function Split(s: string, c: char): (r: seq<string>)
    ensures |r| >= 1
  {
    if s == [] then [""]
    else if s[0] == c then [""] + Split(s[1..], c)
    else var rest := Split(s[1..], c); [[s[0]] + rest[0]] + rest[1..]
  }

  lemma {:induction false} SplitNoSeparator(a: string, c: char)
    requires c !in a
    ensures Split(a, c) == [a]
  {
    if a != [] {
      SplitNoSeparator(a[1..], c);
      assert [a[0]] + a[1..] == a;
    }
  }

  lemma {:induction false} SplitAfterPiece(a: string, c: char, t: string)
    requires c !in a
    ensures Split(a + [c] + t, c) == [a] + Split(t, c)
  {
    if a == [] {
      assert a + [c] + t == [c] + t;
      assert ([c] + t)[1..] == t;
    } else {
      assert (a + [c] + t)[1..] == a[1..] + [c] + t;
      SplitAfterPiece(a[1..], c, t);
      assert [a[0]] + a[1..] == a;
    }
  }

  /** Joining pieces that do not contain the separator and splitting again gives the pieces back. */
  lemma {:induction false} SplitJoin(parts: seq<string>, c: char)
    requires |parts| >= 1
    requires forall i :: 0 <= i < |parts| ==> c !in parts[i]
    ensures Split(Join(parts, [c]), c) == parts
  {
    if |parts| == 1 {
      SplitNoSeparator(parts[0], c);
    } else {
      SplitJoin(parts[1..], c);
      SplitAfterPiece(parts[0], c, Join(parts[1..], [c]));
      assert [parts[0]] + parts[1..] == parts;
    }
  }

  /** Joining never introduces a character that neither the parts nor the separator hold. */
  lemma {:induction false} JoinExcludes(parts: seq<string>, sep: string, c: char)
    requires c !in sep
    requires forall k :: 0 <= k < |parts| ==> c !in parts[k]
    ensures c !in Join(parts, sep)
  {
    if |parts| > 1 {
      JoinExcludes(parts[1..], sep, c);
    }
  }

  /** Indenting adds only blanks and line feeds. */
  lemma {:induction false} IndentExcludes(s: string, n: nat, c: char)
    requires c != ' ' && c != '\n' && c !in s
    ensures c !in Indent(s, n)
  {
    PadLinesExcludes(s, Spaces(n), c);
  }

  lemma {:induction false} PadLinesExcludes(s: string, pad: string, c: char)
    requires c != '\n' && c !in pad && c !in s
    ensures c !in PadLines(s, pad)
  {
    if s != [] {
      PadLinesExcludes(s[1..], pad, c);
    }
  }

  /** `s.replace("\r\n", "\n")`: left to right, each carriage return and line feed pair becomes one line feed. */
  function ReplaceCrLf(s: string): (r: string)
  {
    if s == [] then ""
    else if |s| >= 2 && s[0] == '\r' && s[1] == '\n' then "\n" + ReplaceCrLf(s[2..])
    else [s[0]] + ReplaceCrLf(s[1..])
  }

  /** `s.replace("\r", "\n")`: every remaining carriage return becomes a line feed. */
  function ReplaceCr(s: string): (r: string)
    ensures |r| == |s| && '\r' !in r
  {
    seq(|s|, i requires 0 <= i < |s| => if s[i] == '\r' then '\n' else s[i])
  }

  /**
   * The newline standardisation that ends the document: both replacements in
   * order. The result has no carriage return, and text without one is left as is.
   */
  function NormalizeNewlines(s: string): (r: string)
    ensures '\r' !in r
    ensures '\r' !in s ==> r == s
  {
    if '\r' !in s then ReplaceCrLfIdentity(s); ReplaceCr(ReplaceCrLf(s))
    else ReplaceCr(ReplaceCrLf(s))
  }

  lemma {:induction false} ReplaceCrLfIdentity(s: string)
    requires '\r' !in s
    ensures ReplaceCrLf(s) == s && ReplaceCr(s) == s
  {
    if s != [] {
      assert s[0] != '\r';
      assert '\r' !in s[1..] by {
        forall i | 0 <= i < |s[1..]| ensures s[1..][i] != '\r' { assert s[1..][i] == s[i + 1]; }
      }
      ReplaceCrLfIdentity(s[1..]);
      assert [s[0]] + s[1..] == s;
    }
  }

  lemma {:induction false} ReplaceCrLfAppend(a: string, b: string)
    requires a == [] || a[|a| - 1] != '\r'
    ensures ReplaceCrLf(a + b) == ReplaceCrLf(a) + ReplaceCrLf(b)
  {
    if a == [] {
      assert a + b == b;
    } else if |a| >= 2 && a[0] == '\r' && a[1] == '\n' {
      var t := a[2..];
      assert t == [] || t[|t| - 1] == a[|a| - 1];
      ReplaceCrLfAppend(t, b);
      ReplaceCrLfPairHead(a, b);
      assert "\n" + (ReplaceCrLf(t) + ReplaceCrLf(b)) == "\n" + ReplaceCrLf(t) + ReplaceCrLf(b);
    } else {
      var t := a[1..];
      assert t == [] || t[|t| - 1] == a[|a| - 1];
      ReplaceCrLfAppend(t, b);
      ReplaceCrLfSingleHead(a, b);
      assert [a[0]] + (ReplaceCrLf(t) + ReplaceCrLf(b)) == [a[0]] + ReplaceCrLf(t) + ReplaceCrLf(b);
    }
  }

  /** A leading carriage return and line feed pair of `a` is replaced whatever follows `a`. */
  lemma ReplaceCrLfPairHead(a: string, b: string)
    requires |a| >= 2 && a[0] == '\r' && a[1] == '\n'
    ensures ReplaceCrLf(a + b) == "\n" + ReplaceCrLf(a[2..] + b)
  {
    assert (a + b)[2..] == a[2..] + b;
  }

  /** Any other first character of `a`, unless it is a carriage return ending `a`, is copied whatever follows `a`. */
  lemma ReplaceCrLfSingleHead(a: string, b: string)
    requires a != [] && !(|a| >= 2 && a[0] == '\r' && a[1] == '\n')
    requires |a| == 1 ==> a[0] != '\r'
    ensures ReplaceCrLf(a + b) == [a[0]] + ReplaceCrLf(a[1..] + b)
  {
    assert (a + b)[1..] == a[1..] + b;
    assert (a + b)[0] == a[0] && (|a| >= 2 ==> (a + b)[1] == a[1]);
  }

  /** Text before a point that is not a lone carriage return normalises on its own. */
  lemma NormalizeAppend(a: string, b: string)
    requires a == [] || a[|a| - 1] != '\r'
    ensures NormalizeNewlines(a + b) == NormalizeNewlines(a) + NormalizeNewlines(b)
  {
    ReplaceCrLfAppend(a, b);
    var x, y := ReplaceCrLf(a), ReplaceCrLf(b);
    assert ReplaceCr(x + y) == ReplaceCr(x) + ReplaceCr(y);
  }

  /** Normalising twice is normalising once. */
  lemma NormalizeIdempotent(s: string)
    ensures NormalizeNewlines(NormalizeNewlines(s)) == NormalizeNewlines(s)
  {
  }

  predicate IsLineTerminator(c: char)
  {
    c == '\n' || c == '\r' || c == '\U{85}' || c == '\U{2028}' || c == '\U{2029}'
  }

  /**
   * `s.replaceFirst("\n$", "")` under java.util.regex: without MULTILINE, `$`
   * matches at the end of the input and also just before a final line
   * terminator (one of the five terminators, or a final carriage return and
   * line feed pair). The leftmost match is removed.
   */
  function StripFinalNewline(s: string): (r: string)
  {
    var n := |s|;
    if n >= 3 && s[n - 3] == '\n' && s[n - 2] == '\r' && s[n - 1] == '\n' then s[..n - 3] + s[n - 2..]
    else if n >= 2 && s[n - 2] == '\n' && IsLineTerminator(s[n - 1]) then s[..n - 2] + s[n - 1..]
    else if n >= 1 && s[n - 1] == '\n' then s[..n - 1]
    else s
  }

  /**
   * On text that ends with a line feed the replacement removes exactly one line
   * feed, and it is the last character unless the text ends in a line feed,
   * carriage return, line feed triple; text that does not end with a line feed
   * is kept as it is.
   */
  lemma StripFinalNewlineRemovesOne(s: string)
    ensures |s| > 0 && s[|s| - 1] == '\n' ==>
      exists p :: 0 <= p < |s| && s[p] == '\n' && StripFinalNewline(s) == s[..p] + s[p + 1..]
    ensures |s| > 0 && s[|s| - 1] == '\n' && !(|s| >= 3 && s[|s| - 3..] == "\n\r\n") ==>
      StripFinalNewline(s) == s[..|s| - 1]
    ensures (|s| == 0 || !IsLineTerminator(s[|s| - 1])) ==> StripFinalNewline(s) == s
  {
    var n := |s|;
    if n > 0 && s[n - 1] == '\n' {
      if n >= 3 && s[n - 3] == '\n' && s[n - 2] == '\r' {
        assert s[..n - 3] + s[n - 2..] == s[..n - 3] + s[n - 3 + 1..];
      } else if n >= 2 && s[n - 2] == '\n' {
        assert s[..n - 2] + s[n - 1..] == s[..n - 1];
        assert s[..n - 2] + s[n - 1..] == s[..n - 2] + s[n - 2 + 1..];
      } else {
        assert s[..n - 1] == s[..n - 1] + s[n - 1 + 1..];
      }
    }
  }

  /** A `StringBuilder`: text that can only grow at the end. */
  class TextBuffer {
    var content: string

    constructor ()
      ensures content == ""
    {
      content := "";
    }

    method Append(s: string)
      modifies this
      ensures content == old(content) + s
    {
      content := content + s;
    }
  }
}
