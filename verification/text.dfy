/** String helpers the handlers rely on: JavaScript's `trim`, and the
    `url.split("/").pop().split(".")[0]` idiom that recovers a Cloudinary public
    id from a delivery URL. */
module Text {
  import opened Common

  /** The code points `String.prototype.trim` strips (ECMAScript WhiteSpace and
      LineTerminator). */
  predicate IsSpace(c: char)
  {
    var n := c as int;
    n == 0x09 || n == 0x0A || n == 0x0B || n == 0x0C || n == 0x0D || n == 0x20
    || n == 0xA0 || n == 0x1680 || (0x2000 <= n <= 0x200A) || n == 0x2028
    || n == 0x2029 || n == 0x202F || n == 0x205F || n == 0x3000 || n == 0xFEFF
  }

  predicate AllSpace(s: string)
  {
    forall i :: 0 <= i < |s| ==> IsSpace(s[i])
  }

  /** Neither end of `s` is white space: what `trim` leaves behind. */
  predicate Trimmed(s: string)
  {
    s == [] || (!IsSpace(s[0]) && !IsSpace(s[|s| - 1]))
  }

  /** `s` without its leading white space. */
  function TrimStart(s: string): (r: string)
    ensures |r| <= |s| && r == s[|s| - |r|..]
    ensures AllSpace(s[..|s| - |r|])
    ensures r == [] || !IsSpace(r[0])
  {
    if |s| > 0 && IsSpace(s[0]) then
      var r := TrimStart(s[1..]);
      var k := |s| - |r|;
      assert s[..k] == [s[0]] + s[1..][..k - 1];
      assert s[k..] == s[1..][k - 1..];
      r
    else s
  }

  /** `s` without its trailing white space. */
  function TrimEnd(s: string): (r: string)
    ensures |r| <= |s| && r == s[..|r|]
    ensures AllSpace(s[|r|..])
    ensures r == [] || !IsSpace(r[|r| - 1])
  {
    if |s| > 0 && IsSpace(s[|s| - 1]) then
      var r := TrimEnd(s[..|s| - 1]);
      assert s[|r|..] == s[..|s| - 1][|r|..] + [s[|s| - 1]];
      assert s[..|r|] == s[..|s| - 1][..|r|];
      r
    else s
  }

  lemma TrimEndKeepsFirst(s: string)
    requires s != [] && !IsSpace(s[0])
    ensures TrimEnd(s) != [] && TrimEnd(s)[0] == s[0]
  {
  }

  lemma TrimStartEnd(s: string)
    ensures var r := TrimEnd(TrimStart(s));
      Trimmed(r) && (r == [] <==> AllSpace(s))
  {
    var t := TrimStart(s);
    var i := |s| - |t|;
    var r := TrimEnd(t);
    if t != [] { TrimEndKeepsFirst(t); }
    if r == [] {
      assert s[..i] == s;
    }
  }

  /** JavaScript's `s.trim()`: the result has no blank end, and is empty exactly
      when the input is all white space. */
  function Trim(s: string): (r: string)
    ensures Trimmed(r)
    ensures r == [] <==> AllSpace(s)
    ensures |r| <= |s|
  {
    TrimStartEnd(s);
    TrimEnd(TrimStart(s))
  }

  /** Every string is its trimmed form between two blank margins. */
  lemma TrimDecomposes(s: string) returns (pre: string, post: string)
    ensures s == pre + Trim(s) + post
    ensures AllSpace(pre) && AllSpace(post)
  {
    var t := TrimStart(s);
    var r := TrimEnd(t);
    SplitAround(s, t, r);
    pre := s[..|s| - |t|];
    post := t[|r|..];
  }

  /** A suffix `t` of `s` with a prefix `r` of `t` cuts `s` into three pieces. */
  lemma SplitAround(s: string, t: string, r: string)
    requires |t| <= |s| && t == s[|s| - |t|..]
    requires |r| <= |t| && r == t[..|r|]
    ensures s == s[..|s| - |t|] + r + t[|r|..]
  {
    assert s == s[..|s| - |t|] + t;
    assert t == r + t[|r|..];
  }

  /** The request-validation test `!x?.trim()`: the field is missing or blank. */
  predicate Blank(x: Option<string>)
  {
    x.None? || Trim(x.value) == []
  }

  lemma {:induction false} TrimStartPadded(pre: string, m: string)
    requires AllSpace(pre) && (m == [] || !IsSpace(m[0]))
    ensures TrimStart(pre + m) == m
    decreases |pre|
  {
    if pre != [] {
      assert (pre + m)[1..] == pre[1..] + m;
      TrimStartPadded(pre[1..], m);
    }
  }

  lemma {:induction false} TrimEndPadded(m: string, post: string)
    requires AllSpace(post) && (m == [] || !IsSpace(m[|m| - 1]))
    ensures TrimEnd(m + post) == m
    decreases |post|
  {
    if post != [] {
      var p := post[..|post| - 1];
      assert (m + post)[..|m + post| - 1] == m + p;
      TrimEndPadded(m, p);
    }
  }

  /** Trimming removes exactly blank margins: any text with no blank ends,
      padded with white space on either side, trims back to itself. */
  lemma TrimOfPadded(pre: string, m: string, post: string)
    requires AllSpace(pre) && AllSpace(post) && Trimmed(m)
    ensures Trim(pre + m + post) == m
  {
    if m == [] {
      assert pre + m + post == pre + post;
      assert AllSpace(pre + post);
    } else {
      assert pre + m + post == pre + (m + post);
      TrimStartPadded(pre, m + post);
      TrimEndPadded(m, post);
    }
  }

  /** `trim` is idempotent. */
  lemma TrimIdempotent(s: string)
    ensures Trim(Trim(s)) == Trim(s)
  {
    TrimOfTrimmed(Trim(s));
  }

  /** Text with no blank end trims to itself. */
  lemma TrimOfTrimmed(m: string)
    requires Trimmed(m)
    ensures Trim(m) == m
  {
    assert [] + m == m;
    TrimStartPadded([], m);
    assert m + [] == m;
    TrimEndPadded(m, []);
  }

  /** `s.split("/").pop()`: the text after the last "/", or all of `s`. */
  function LastSegment(s: string): (r: string)
    ensures '/' !in r
    ensures |r| <= |s| && r == s[|s| - |r|..]
    ensures r == s || s[|s| - |r| - 1] == '/'
  {
    if |s| == 0 || s[|s| - 1] == '/' then []
    else LastSegment(s[..|s| - 1]) + [s[|s| - 1]]
  }

  /** `s.split(".")[0]`: the text before the first ".", or all of `s`. */
  function BeforeFirstDot(s: string): (r: string)
    ensures '.' !in r
    ensures |r| <= |s| && r == s[..|r|]
    ensures r == s || s[|r|] == '.'
  {
    if |s| == 0 || s[0] == '.' then []
    else [s[0]] + BeforeFirstDot(s[1..])
  }

  /** The public id recovered from a media URL: last path segment, extension cut. */
  function MediaName(url: string): (r: string)
    ensures '/' !in r && '.' !in r
  {
    BeforeFirstDot(LastSegment(url))
  }

  lemma {:induction false} LastSegmentOfJoin(dir: string, name: string)
    requires '/' !in name
    ensures LastSegment(dir + "/" + name) == name
    decreases |name|
  {
    if name == [] {
      assert dir + "/" + name == dir + "/";
    } else {
      var init := name[..|name| - 1];
      assert (dir + "/" + name)[..|dir + "/" + name| - 1] == dir + "/" + init;
      assert name[|name| - 1] in name;
      LastSegmentOfJoin(dir, init);
      assert init + [name[|name| - 1]] == name;
    }
  }

  lemma {:induction false} BeforeFirstDotOfJoin(name: string, ext: string)
    requires '.' !in name
    ensures BeforeFirstDot(name + "." + ext) == name
    decreases |name|
  {
    if name == [] {
      assert (name + "." + ext)[0] == '.';
    } else {
      assert name[0] in name;
      assert (name + "." + ext)[1..] == name[1..] + "." + ext;
      assert '.' !in name[1..] by {
        forall k | 0 <= k < |name[1..]| ensures name[1..][k] != '.' {
          assert name[1..][k] == name[k + 1];
        }
      }
      BeforeFirstDotOfJoin(name[1..], ext);
      assert [name[0]] + name[1..] == name;
    }
  }

  /** A delivery URL `dir/name.ext` yields back `name`: the derivation inverts the
      way storage URLs are built from a public id. */
  lemma MediaNameOfUrl(dir: string, name: string, ext: string)
    requires '/' !in name && '.' !in name && '/' !in ext
    ensures MediaName(dir + "/" + name + "." + ext) == name
  {
    var file := name + "." + ext;
    assert '/' !in file by {
      forall k | 0 <= k < |file| ensures file[k] != '/' {
        if k < |name| { assert file[k] == name[k]; }
        else if k > |name| { assert file[k] == ext[k - |name| - 1]; }
      }
    }
    assert dir + "/" + name + "." + ext == dir + "/" + file;
    LastSegmentOfJoin(dir, file);
    BeforeFirstDotOfJoin(name, ext);
  }
}
