/** The two JavaScript string operations the CSV importer relies on. */
module JsText {

  /** ECMAScript's WhiteSpace and LineTerminator code points, which String.prototype.trim removes. */
  predicate IsWhite(c: char) {
    || c == ' ' || '\t' <= c <= '\r' || c == '\U{00A0}' || c == '\U{1680}' || '\U{2000}' <= c <= '\U{200A}'
    || c == '\U{2028}' || c == '\U{2029}' || c == '\U{202F}' || c == '\U{205F}' || c == '\U{3000}' || c == '\U{FEFF}'
  }

  /** Among the ASCII characters these are tab, line feed, vertical tab, form feed, carriage return and
      space. */
  lemma AsciiWhite(c: char)
    requires c as int < 128
    ensures IsWhite(c) <==> c as int in {9, 10, 11, 12, 13, 32}
  {}

  predicate AllWhite(s: string) {
    forall i | 0 <= i < |s| :: IsWhite(s[i])
  }

  /** No white space at either end. */
  predicate Trimmed(s: string) {
    s == "" || (!IsWhite(s[0]) && !IsWhite(s[|s| - 1]))
  }

  function TrimStart(s: string): string {
    if s != "" && IsWhite(s[0]) then TrimStart(s[1..]) else s
  }

  function TrimEnd(s: string): string {
    if s != "" && IsWhite(s[|s| - 1]) then TrimEnd(s[..|s| - 1]) else s
  }

  function Trim(s: string): string {
    TrimEnd(TrimStart(s))
  }

  lemma {:induction false} TrimStartCore(pre: string, s: string)
    requires AllWhite(pre) && (s == "" || !IsWhite(s[0]))
    ensures TrimStart(pre + s) == s
  {
    if pre == "" {
      assert pre + s == s;
    } else {
      assert (pre + s)[1..] == pre[1..] + s;
      TrimStartCore(pre[1..], s);
    }
  }

  lemma {:induction false} TrimEndCore(s: string, post: string)
    requires AllWhite(post) && (s == "" || !IsWhite(s[|s| - 1]))
    ensures TrimEnd(s + post) == s
  {
    if post == "" {
      assert s + post == s;
    } else {
      assert (s + post)[..|s + post| - 1] == s + post[..|post| - 1];
      TrimEndCore(s, post[..|post| - 1]);
    }
  }

  /** A core without white space at its ends is exactly what is left of any white padding of it. */
  lemma TrimIsCore(pre: string, core: string, post: string)
    requires AllWhite(pre) && AllWhite(post) && Trimmed(core)
    ensures Trim(pre + core + post) == core
  {
    if core == "" {
      assert pre + core + post == (pre + post) + "";
      TrimStartCore(pre + post, "");
    } else {
      assert pre + core + post == pre + (core + post);
      TrimStartCore(pre, core + post);
      TrimEndCore(core, post);
    }
  }

  lemma {:induction false} SplitStart(s: string) returns (pre: string)
    ensures AllWhite(pre) && s == pre + TrimStart(s)
    ensures TrimStart(s) == "" || !IsWhite(TrimStart(s)[0])
    decreases |s|
  {
    if s == "" || !IsWhite(s[0]) {
      pre := "";
      assert s == pre + s;
    } else {
      var rest := SplitStart(s[1..]);
      pre := [s[0]] + rest;
      ReassembleFront(s, rest, TrimStart(s));
    }
  }

  lemma ReassembleFront(s: string, a: string, b: string)
    requires s != "" && s[1..] == a + b
    ensures s == ([s[0]] + a) + b
  {
    assert s == [s[0]] + s[1..];
  }

  lemma {:induction false} SplitEnd(s: string) returns (post: string)
    ensures AllWhite(post) && s == TrimEnd(s) + post
    ensures TrimEnd(s) == "" || !IsWhite(TrimEnd(s)[|TrimEnd(s)| - 1])
    decreases |s|
  {
    if s == "" || !IsWhite(s[|s| - 1]) {
      post := "";
      assert s == s + post;
    } else {
      var rest := SplitEnd(s[..|s| - 1]);
      post := rest + [s[|s| - 1]];
      Reassemble(s, TrimEnd(s), rest);
    }
  }

  lemma Reassemble(s: string, a: string, b: string)
    requires s != "" && s[..|s| - 1] == a + b
    ensures s == a + (b + [s[|s| - 1]])
  {
    assert s == s[..|s| - 1] + [s[|s| - 1]];
  }

  lemma {:induction false} TrimEndKeepsStart(s: string)
    requires s == "" || !IsWhite(s[0])
    ensures TrimEnd(s) == "" || TrimEnd(s)[0] == s[0]
    decreases |s|
  {
    if s != "" && IsWhite(s[|s| - 1]) {
      TrimEndKeepsStart(s[..|s| - 1]);
    }
  }

  /** Every string is its trimmed core with white space around it. */
  lemma TrimSplits(s: string) returns (pre: string, post: string)
    ensures AllWhite(pre) && AllWhite(post) && Trimmed(Trim(s))
    ensures s == pre + Trim(s) + post
  {
    hide IsWhite;
    pre := SplitStart(s);
    var core := TrimStart(s);
    post := SplitEnd(core);
    TrimEndKeepsStart(core);
    assert pre + (Trim(s) + post) == pre + Trim(s) + post;
  }

  lemma TrimIdempotent(s: string)
    ensures Trimmed(Trim(s)) && Trim(Trim(s)) == Trim(s)
  {
    var pre, post := TrimSplits(s);
    TrimIsCore("", Trim(s), "");
    assert "" + Trim(s) + "" == Trim(s);
  }
}
