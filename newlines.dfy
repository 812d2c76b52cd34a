/**
 * `convert_newlines`: every newline of a prompt becomes a Markdown hard line
 * break, two spaces followed by the newline.
 */
module Newlines {

  /** What one newline is replaced by. */
  const HardBreak: string := "  \n"

  /** The number of newlines in `s`. */
  function NewlineCount(s: string): nat
  {
    if s == [] then 0 else (if s[0] == '\n' then 1 else 0) + NewlineCount(s[1..])
  }

  /** `prompt.replace("\n", "  \n")`. */
  function ConvertNewlines(s: string): (r: string)
    ensures |r| == |s| + 2 * NewlineCount(s)
  {
    if s == [] then []
    else (if s[0] == '\n' then HardBreak else [s[0]]) + ConvertNewlines(s[1..])
  }

  lemma {:induction false} NewlineCountAppend(a: string, b: string)
    ensures NewlineCount(a + b) == NewlineCount(a) + NewlineCount(b)
    decreases |a|
  {
    if a != [] {
      assert (a + b)[0] == a[0] && (a + b)[1..] == a[1..] + b;
      NewlineCountAppend(a[1..], b);
      assert NewlineCount(a + b) == (if a[0] == '\n' then 1 else 0) + NewlineCount(a[1..] + b);
    } else {
      assert a + b == b;
    }
  }

  /** The rewrite works piece by piece: converting a concatenation converts each part. */
  lemma {:induction false} ConvertAppend(a: string, b: string)
    ensures ConvertNewlines(a + b) == ConvertNewlines(a) + ConvertNewlines(b)
    decreases |a|
  {
    if a != [] {
      assert (a + b)[0] == a[0] && (a + b)[1..] == a[1..] + b;
      ConvertAppend(a[1..], b);
      var head := if a[0] == '\n' then HardBreak else [a[0]];
      assert ConvertNewlines(a + b) == head + ConvertNewlines(a[1..] + b);
      assert head + (ConvertNewlines(a[1..]) + ConvertNewlines(b)) == (head + ConvertNewlines(a[1..])) + ConvertNewlines(b);
    } else {
      assert a + b == b;
    }
  }

  /** A newline becomes a hard break, and every other character stays as it is. */
  lemma ConvertOneChar(c: char)
    ensures ConvertNewlines([c]) == if c == '\n' then HardBreak else [c]
  {
    assert [c][1..] == [];
  }

  /** A prompt without newlines comes back unchanged. */
  lemma {:induction false} ConvertWithoutNewline(s: string)
    requires forall i :: 0 <= i < |s| ==> s[i] != '\n'
    ensures ConvertNewlines(s) == s
  {
    if s != [] {
      ConvertWithoutNewline(s[1..]);
      assert s == [s[0]] + s[1..];
    }
  }

  /** A small case: "a\nb" becomes "a  \nb". */
  lemma ConvertExample()
    ensures ConvertNewlines("a\nb") == "a  \nb"
  {
    ConvertAppend("a\n", "b");
    ConvertAppend("a", "\n");
    ConvertOneChar('a');
    ConvertOneChar('\n');
    ConvertOneChar('b');
  }

  /** Applying the rewrite again adds two more spaces before each newline: it is not idempotent. */
  lemma ConvertNotIdempotent()
    ensures ConvertNewlines(ConvertNewlines("\n")) == "    \n"
    ensures ConvertNewlines(ConvertNewlines("\n")) != ConvertNewlines("\n")
  {
    ConvertOneChar('\n');
    ConvertWithoutNewline("  ");
    assert HardBreak == "  " + "\n";
    ConvertAppend("  ", "\n");
  }

  /** Turns every "  \n" found scanning from the left back into "\n". */
  function RestoreNewlines(r: string): string
  {
    if |r| >= 3 && r[..3] == HardBreak then "\n" + RestoreNewlines(r[3..])
    else if r == [] then []
    else [r[0]] + RestoreNewlines(r[1..])
  }

  /** Neither of the first two characters of a converted string is a newline. */
  lemma ConvertedStart(s: string)
    ensures |ConvertNewlines(s)| > 0 ==> ConvertNewlines(s)[0] != '\n'
    ensures |ConvertNewlines(s)| > 1 ==> ConvertNewlines(s)[1] != '\n'
  {
    if s != [] && s[0] != '\n' && |s| > 1 {
      assert ConvertNewlines(s) == [s[0]] + ConvertNewlines(s[1..]);
      assert ConvertNewlines(s[1..]) == (if s[1] == '\n' then HardBreak else [s[1]]) + ConvertNewlines(s[2..]);
    }
  }

  /** Newlines are neither lost nor added: the rewrite only inserts spaces. */
  lemma {:induction false} ConvertKeepsNewlines(s: string)
    ensures NewlineCount(ConvertNewlines(s)) == NewlineCount(s)
  {
    if s != [] {
      ConvertKeepsNewlines(s[1..]);
      NewlineCountAppend(if s[0] == '\n' then HardBreak else [s[0]], ConvertNewlines(s[1..]));
    }
  }

  /** The conversion loses nothing: `RestoreNewlines` undoes it on every input. */
  lemma {:induction false} RestoreConvert(s: string)
    ensures RestoreNewlines(ConvertNewlines(s)) == s
  {
    if s != [] {
      var rest := ConvertNewlines(s[1..]);
      RestoreConvert(s[1..]);
      if s[0] == '\n' {
        assert ConvertNewlines(s) == HardBreak + rest;
        assert (HardBreak + rest)[..3] == HardBreak;
        assert (HardBreak + rest)[3..] == rest;
      } else {
        var r := [s[0]] + rest;
        assert ConvertNewlines(s) == r;
        ConvertedStart(s[1..]);
        assert |r| >= 3 ==> r[2] == rest[1];
        assert !(|r| >= 3 && r[..3] == HardBreak);
        assert r[1..] == rest;
        assert s == [s[0]] + s[1..];
      }
    }
  }

  /** Two prompts with the same conversion are the same prompt. */
  lemma ConvertInjective(s: string, t: string)
    requires ConvertNewlines(s) == ConvertNewlines(t)
    ensures s == t
  {
    RestoreConvert(s);
    RestoreConvert(t);
  }
}
