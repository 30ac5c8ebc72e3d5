/**
 * The raw-content URL rewrite: a two-pair string replacer that turns
 * "github.com" into "raw.githubusercontent.com" and "/tree/" into "/".
 * Like Go's strings.Replacer it scans left to right and replaces
 * non-overlapping matches; at each position the pairs are tried in argument
 * order, and since the two patterns begin with different characters at most
 * one of them can match there.
 */
module RawUrl {
  import opened Text

  const GitHubHost := "github.com"
  const RawHost := "raw.githubusercontent.com"
  const TreeSegment := "/tree/"
  const Slash := "/"

  /** One of the two patterns begins at the start of `s`. */
  predicate StartsPattern(s: string)
  {
    IsPrefix(GitHubHost, s) || IsPrefix(TreeSegment, s)
  }

  /**
   * The replacer's single left-to-right pass: a pattern beginning at the
   * current position is replaced and the scan resumes after it; any other
   * character is copied.
   */
  function RawURL(s: string): string
    decreases |s|
  {
    if s == [] then []
    else if IsPrefix(GitHubHost, s) then RawHost + RawURL(s[|GitHubHost|..])
    else if IsPrefix(TreeSegment, s) then Slash + RawURL(s[|TreeSegment|..])
    else [s[0]] + RawURL(s[1..])
  }

  /** A string in which neither pattern occurs is returned unchanged. */
  lemma {:induction false} RawURLUnchanged(s: string)
    requires !Contains(s, GitHubHost) && !Contains(s, TreeSegment)
    ensures RawURL(s) == s
  {
    if s != [] {
      assert !OccursAt(s, GitHubHost, 0) && !OccursAt(s, TreeSegment, 0);
      if Contains(s[1..], GitHubHost) { ContainsTail(s, GitHubHost); }
      if Contains(s[1..], TreeSegment) { ContainsTail(s, TreeSegment); }
      RawURLUnchanged(s[1..]);
      assert s == [s[0]] + s[1..];
    }
  }

  /**
   * Characters at which no pattern begins are copied through one by one:
   * the rewrite of `p + s` is `p` followed by the rewrite of `s`.
   */
  lemma {:induction false} RawURLPlainPrefix(p: string, s: string)
    requires forall i :: 0 <= i < |p| ==> !StartsPattern((p + s)[i..])
    ensures RawURL(p + s) == p + RawURL(s)
  {
    if p != [] {
      assert !StartsPattern((p + s)[0..]);
      assert (p + s)[0..] == p + s;
      assert (p + s)[1..] == p[1..] + s;
      forall i | 0 <= i < |p[1..]|
        ensures !StartsPattern((p[1..] + s)[i..])
      {
        assert (p[1..] + s)[i..] == (p + s)[i + 1..];
      }
      RawURLPlainPrefix(p[1..], s);
    }
  }

  /** A pattern can only begin at a 'g', or at a '/' followed by a 't'. */
  lemma NoPatternAt(t: string)
    requires |t| > 0 && t[0] != 'g' && (t[0] == '/' ==> |t| > 1 && t[1] != 't')
    ensures !StartsPattern(t)
  {
  }

  /** Plain characters: none is a 'g', and every '/' is followed by something other than a 't'. */
  predicate PlainBefore(p: string, s: string)
  {
    forall i :: 0 <= i < |p| ==>
      (p + s)[i] != 'g' && ((p + s)[i] == '/' ==> i + 1 < |p + s| && (p + s)[i + 1] != 't')
  }

  lemma RawURLCopiesPlain(p: string, s: string)
    requires PlainBefore(p, s)
    ensures RawURL(p + s) == p + RawURL(s)
  {
    forall i | 0 <= i < |p|
      ensures !StartsPattern((p + s)[i..])
    {
      var t := (p + s)[i..];
      assert (p + s)[i] != 'g' && ((p + s)[i] == '/' ==> i + 1 < |p + s| && (p + s)[i + 1] != 't');
      assert t[0] == (p + s)[i];
      assert |t| > 1 ==> t[1] == (p + s)[i + 1];
      NoPatternAt(t);
    }
    RawURLPlainPrefix(p, s);
  }

  /** The host of an https GitHub URL becomes the raw-content host; the rest is rewritten on its own. */
  lemma RawURLGitHubHttps(rest: string)
    ensures RawURL("https://" + GitHubHost + rest) == "https://" + RawHost + RawURL(rest)
  {
    var p := "https://";
    var s := GitHubHost + rest;
    assert PlainBefore(p, s) by {
      forall i | 0 <= i < |p|
        ensures (p + s)[i] != 'g' && ((p + s)[i] == '/' ==> i + 1 < |p + s| && (p + s)[i + 1] != 't')
      {
        assert (p + s)[i] == p[i];
        assert i + 1 < |p| ==> (p + s)[i + 1] == p[i + 1];
        assert (p + s)[|p|] == s[0] == 'g';
      }
    }
    RawURLCopiesPlain(p, s);
    assert s[..|GitHubHost|] == GitHubHost;
    assert s[|GitHubHost|..] == rest;
    assert p + s == p + GitHubHost + rest;
  }

  /** A "/tree/" segment collapses to a single slash. */
  lemma RawURLTree(rest: string)
    ensures RawURL(TreeSegment + rest) == Slash + RawURL(rest)
  {
    var s := TreeSegment + rest;
    assert s[0] == '/';
    assert s[..|TreeSegment|] == TreeSegment;
    assert s[|TreeSegment|..] == rest;
  }

  /** A string of plain characters is its own rewrite. */
  lemma RawURLAllPlain(p: string)
    requires PlainBefore(p, [])
    ensures RawURL(p) == p
  {
    RawURLCopiesPlain(p, []);
    assert p + [] == p;
  }

  /**
   * A GitHub "tree" page URL maps to the raw-content URL of the same path:
   * the host is replaced and the "/tree/" segment collapses to "/".
   */
  lemma RawURLTreePage(path: string, rest: string)
    requires PlainBefore(path, TreeSegment + rest) && PlainBefore(rest, [])
    ensures RawURL("https://" + GitHubHost + path + TreeSegment + rest)
         == "https://" + RawHost + path + Slash + rest
  {
    RawURLGitHubHttps(path + (TreeSegment + rest));
    RawURLCopiesPlain(path, TreeSegment + rest);
    RawURLTree(rest);
    RawURLAllPlain(rest);
    assert "https://" + GitHubHost + path + TreeSegment + rest
        == "https://" + GitHubHost + (path + (TreeSegment + rest));
  }

  lemma ExamplePathIsPlain()
    ensures PlainBefore("/a/b", TreeSegment + "main/c")
  {
    var path, s := "/a/b", TreeSegment + "main/c";
    assert (path + s)[0] == '/' && (path + s)[1] == 'a' && (path + s)[2] == '/' && (path + s)[3] == 'b';
    assert (path + s)[4] == '/' && (path + s)[5] == 't';
  }

  lemma ExampleFileIsPlain()
    ensures PlainBefore("main/c", [])
  {
    assert "main/c" + [] == "main/c";
  }

  // The worked example below is proved in small steps: every step keeps the
  // literal strings the verifier has to unfold short.

  lemma ExampleHost()
    ensures RawURL("https://github.com/a/b/tree/main/c") == "https://" + RawHost + RawURL("/a/b/tree/main/c")
  {
    var tail := "/a/b/tree/main/c";
    assert "https://github.com/a/b/tree/main/c" == "https://" + GitHubHost + tail;
    RawURLGitHubHttps(tail);
  }

  lemma ExamplePathSplit()
    ensures "/a/b" + (TreeSegment + "main/c") == "/a/b/tree/main/c"
    ensures "/a/b" + Slash == "/a/b/"
  {
  }

  lemma ExamplePath()
    ensures RawURL("/a/b/tree/main/c") == "/a/b/" + RawURL("main/c")
  {
    var rest := "main/c";
    ExamplePathIsPlain();
    ExamplePathSplit();
    RawURLCopiesPlain("/a/b", TreeSegment + rest);
    RawURLTree(rest);
    assert RawURL("/a/b/tree/main/c") == "/a/b" + (Slash + RawURL(rest));
  }

  lemma ExampleFile()
    ensures RawURL("main/c") == "main/c"
  {
    ExampleFileIsPlain();
    RawURLAllPlain("main/c");
  }

  lemma ExampleAssembled()
    ensures RawURL("https://github.com/a/b/tree/main/c") == "https://" + RawHost + ("/a/b/" + "main/c")
  {
    ExampleHost();
    ExamplePath();
    ExampleFile();
  }

  lemma ExampleSpelledOut()
    ensures "https://" + RawHost + ("/a/b/" + "main/c") == "https://raw.githubusercontent.com/a/b/main/c"
  {
    assert "/a/b/" + "main/c" == "/a/b/main/c";
    assert "https://" + RawHost == "https://raw.githubusercontent.com";
  }

  /** The worked example: both patterns rewritten, everything else kept. */
  lemma RawURLExample()
    ensures RawURL("https://github.com/a/b/tree/main/c") == "https://raw.githubusercontent.com/a/b/main/c"
  {
    ExampleAssembled();
    ExampleSpelledOut();
  }

  /**
   * Re-applying the rewrite changes nothing exactly when the first
   * application left no pattern behind.
   */
  lemma RawURLIdempotentWhenClean(s: string)
    requires !Contains(RawURL(s), GitHubHost) && !Contains(RawURL(s), TreeSegment)
    ensures RawURL(RawURL(s)) == RawURL(s)
  {
    RawURLUnchanged(RawURL(s));
  }

  /**
   * Without that premise the rewrite is not idempotent: the match in
   * "/tree/tree/" consumes the slash the second "tree/" would need.
   */
  lemma RawURLNotIdempotent()
    ensures RawURL("/tree/tree/") == "/tree/"
    ensures RawURL(RawURL("/tree/tree/")) == "/"
  {
    var s := "/tree/tree/";
    assert s[..|TreeSegment|] == TreeSegment;
    assert s[|TreeSegment|..] == "tree/";
    var t := "tree/";
    forall i | 0 <= i < |t|
      ensures !StartsPattern((t + [])[i..])
    {
      var u := (t + [])[i..];
      assert u[0] == t[i];
    }
    RawURLPlainPrefix(t, []);
    assert t + [] == t;
    assert "/tree/"[..|TreeSegment|] == TreeSegment;
    assert "/tree/"[|TreeSegment|..] == [];
  }
}
