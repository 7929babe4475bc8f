/** Python's whitespace trimming (`str.strip()` with no argument), which the
    registry applies to both sides of an id comparison and to the stored
    arrival history. */
module PyText {

  /** The characters for which Python's `str.isspace()` holds. */
  predicate IsSpace(c: char) {
    || ('\t' <= c <= '\r')                  // tab, newline, vertical tab, form feed, carriage return
    || ('\U{1C}' <= c <= '\U{1F}')          // file, group, record and unit separators
    || c == ' '
    || c == '\U{85}'                        // next line
    || c == '\U{A0}'                        // no-break space
    || c == '\U{1680}'
    || ('\U{2000}' <= c <= '\U{200A}')
    || c == '\U{2028}' || c == '\U{2029}'
    || c == '\U{202F}' || c == '\U{205F}'
    || c == '\U{3000}'
  }

  /** Empty or made only of whitespace: Python's `s.strip()` is then falsy. */
  predicate IsBlank(s: string) {
    forall i :: 0 <= i < |s| ==> IsSpace(s[i])
  }

  /** Neither end of `s` is whitespace. */
  predicate IsTrimmed(s: string) {
    s == [] || (!IsSpace(s[0]) && !IsSpace(s[|s| - 1]))
  }

  /** Python's `s.strip()`: `s` with its leading and trailing whitespace
      dropped.  The result has whitespace at neither end, and it is empty
      exactly when `s` is blank. */
  function Strip(s: string): (r: string)
    ensures IsTrimmed(r)
    ensures r == [] <==> IsBlank(s)
    decreases |s|
  {
    if s != [] && IsSpace(s[0]) then Strip(s[1..])
    else if s != [] && IsSpace(s[|s| - 1]) then Strip(s[..|s| - 1])
    else s
  }

  lemma BlankConcat(a: string, b: string)
    requires IsBlank(a) && IsBlank(b)
    ensures IsBlank(a + b)
  {
    assert forall i :: |a| <= i < |a + b| ==> (a + b)[i] == b[i - |a|];
  }

  /** Stripping is determined by the decomposition: whatever whitespace
      surrounds a trimmed core, the core is what `Strip` returns. */
  lemma {:induction false} StripOfPadded(a: string, m: string, b: string)
    requires IsBlank(a) && IsBlank(b) && IsTrimmed(m)
    ensures Strip(a + m + b) == m
    decreases |a| + |b|
  {
    var s := a + m + b;
    if a != [] {
      assert s[0] == a[0];
      assert s[1..] == a[1..] + m + b;
      StripOfPadded(a[1..], m, b);
    } else if b != [] {
      assert s[|s| - 1] == b[|b| - 1];
      if m == [] {
        assert s[0] == b[0];
        assert s[1..] == [] + [] + b[1..];
        StripOfPadded([], [], b[1..]);
      } else {
        assert s[0] == m[0];
        assert s[..|s| - 1] == [] + m + b[..|b| - 1];
        StripOfPadded([], m, b[..|b| - 1]);
      }
    } else {
      assert s == m;
    }
  }

  /** `s` is its leading whitespace, then `Strip(s)`, then its trailing whitespace. */
  lemma {:induction false} StripDecomposes(s: string) returns (pre: string, post: string)
    ensures s == pre + Strip(s) + post
    ensures IsBlank(pre) && IsBlank(post)
    decreases |s|
  {
    if s != [] && IsSpace(s[0]) {
      var rest := s[1..];
      var p, q := StripDecomposes(rest);
      assert Strip(s) == Strip(rest);
      pre, post := [s[0]] + p, q;
      calc {
        s;
        [s[0]] + rest;
        [s[0]] + (p + Strip(rest) + q);
        pre + Strip(s) + post;
      }
      BlankConcat([s[0]], p);
    } else if s != [] && IsSpace(s[|s| - 1]) {
      var init := s[..|s| - 1];
      var p, q := StripDecomposes(init);
      assert Strip(s) == Strip(init);
      pre, post := p, q + [s[|s| - 1]];
      calc {
        s;
        init + [s[|s| - 1]];
        (p + Strip(init) + q) + [s[|s| - 1]];
        pre + Strip(s) + post;
      }
      BlankConcat(q, [s[|s| - 1]]);
    } else {
      pre, post := [], [];
      assert s == [] + s + [];
    }
  }

  /** Whitespace added around a string does not change what `Strip` returns. */
  lemma StripIgnoresPadding(a: string, s: string, b: string)
    requires IsBlank(a) && IsBlank(b)
    ensures Strip(a + s + b) == Strip(s)
  {
    var m := Strip(s);
    var pre, post := StripDecomposes(s);
    var a', b' := a + pre, post + b;
    BlankConcat(a, pre);
    BlankConcat(post, b);
    assert a + s + b == a' + m + b';
    StripOfPadded(a', m, b');
  }

  /** Stripping twice is stripping once. */
  lemma StripIdempotent(s: string)
    ensures Strip(Strip(s)) == Strip(s)
  {
    var m := Strip(s);
    assert m == [] + m + [];
    StripOfPadded([], m, []);
  }
}
