/** Model of the Liquid filter `image_from_cdn` of the blog's Jekyll plugins.

    The filter turns a path relative to the blog's Cloudinary folder, and an
    optional alt text, into a Markdown image reference
        ![<alt>](<BASE><path>)
    inserting both arguments verbatim: nothing is escaped, URL-encoded,
    trimmed or validated. For strings in one encoding, such as the UTF-8
    text Jekyll passes, no input makes it fail. Strings are modelled as
    sequences of Unicode characters, without Ruby's string encodings.
 */
module ImageFromCdn {

  datatype Option<T> = None | Some(value: T)

  /** The Cloudinary folder every image of the blog is served from. */
  const BASE: string := "https://res.cloudinary.com/harigopal/image/upload/v1541686088/blog/"

  /** The alt text used when a template passes the path alone. */
  const DEFAULT_ALT: string := "Image"

  /** The filter itself: a Markdown image reference to `path` under BASE. */
  function ImageFromCdn(path: string, alt: string := DEFAULT_ALT): (r: string)
    ensures |r| == |alt| + |BASE| + |path| + 5
    ensures r[..2] == "![" && r[|r| - 1] == ')'
  {
    "![" + alt + "](" + BASE + path + ")"
  }

  /** Reference description of the filter's output, character by character:
      `s` shows `alt` and `path` inside the fixed Markdown template. */
  ghost predicate LaidOut(s: string, alt: string, path: string) {
    var a, b := 2 + |alt|, 4 + |alt| + |BASE|;
    && |s| == b + |path| + 1
    && s[0] == '!' && s[1] == '['
    && (forall i :: 0 <= i < |alt| ==> s[2 + i] == alt[i])
    && s[a] == ']' && s[a + 1] == '('
    && (forall i :: 0 <= i < |BASE| ==> s[a + 2 + i] == BASE[i])
    && (forall i :: 0 <= i < |path| ==> s[b + i] == path[i])
    && s[|s| - 1] == ')'
  }

  /** The filter's output is laid out as the reference description says. */
  lemma ImageFromCdnLaidOut(path: string, alt: string)
    ensures LaidOut(ImageFromCdn(path, alt), alt, path)
  {
    var r, a := ImageFromCdn(path, alt), 2 + |alt|;
    var b := a + 2 + |BASE|;
    Sections(path, alt);
    forall i | 0 <= i < |alt| ensures r[2 + i] == alt[i] {
      assert r[2..a][i] == r[2 + i];
    }
    forall i | 0 <= i < |BASE| ensures r[a + 2 + i] == BASE[i] {
      assert r[a + 2..b][i] == r[a + 2 + i];
    }
    forall i | 0 <= i < |path| ensures r[b + i] == path[i] {
      assert r[b..|r| - 1][i] == r[b + i];
    }
    assert r[..2][0] == '!' && r[..2][1] == '[';
    assert r[a..a + 2][0] == ']' && r[a..a + 2][1] == '(';
  }

  /** Only the filter's output for `path` and `alt` is laid out that way. */
  lemma LaidOutImageFromCdn(s: string, alt: string, path: string)
    requires LaidOut(s, alt, path)
    ensures s == ImageFromCdn(path, alt)
  {
    var a, b := 2 + |alt|, 4 + |alt| + |BASE|;
    assert s[..2] == "![";
    assert s[2..a] == alt by {
      forall i | 0 <= i < |alt| ensures s[2..a][i] == alt[i] {
        assert s[2..a][i] == s[2 + i];
      }
    }
    assert s[a..a + 2] == "](";
    assert s[a + 2..b] == BASE by {
      forall i | 0 <= i < |BASE| ensures s[a + 2..b][i] == BASE[i] {
        assert s[a + 2..b][i] == s[a + 2 + i];
      }
    }
    assert s[b..|s| - 1] == path by {
      forall i | 0 <= i < |path| ensures s[b..|s| - 1][i] == path[i] {
        assert s[b..|s| - 1][i] == s[b + i];
      }
    }
    assert s[|s| - 1..] == ")";
    assert s == s[..2] + s[2..a] + s[a..a + 2] + s[a + 2..b] + s[b..|s| - 1] + s[|s| - 1..];
  }

  /** A string is the filter's output for `path` and `alt` exactly when it is
      laid out as the reference description says. */
  lemma LaidOutIff(s: string, alt: string, path: string)
    ensures LaidOut(s, alt, path) <==> s == ImageFromCdn(path, alt)
  {
    if LaidOut(s, alt, path) {
      LaidOutImageFromCdn(s, alt, path);
    }
    if s == ImageFromCdn(path, alt) {
      ImageFromCdnLaidOut(path, alt);
    }
  }

  /** The output splits into its five sections, each holding its input
      verbatim: the alt text starts at index 2 and `BASE + path` sits right
      before the closing parenthesis. */
  lemma Sections(path: string, alt: string)
    ensures var r, a := ImageFromCdn(path, alt), 2 + |alt|;
      && r[..2] == "!["
      && r[2..a] == alt
      && r[a..a + 2] == "]("
      && r[a + 2..a + 2 + |BASE|] == BASE
      && r[a + 2 + |BASE|..|r| - 1] == path
      && r[a + 2..|r| - 1] == BASE + path
      && r[|r| - 1..] == ")"
  {
    var r, a := ImageFromCdn(path, alt), 2 + |alt|;
    var b := a + 2 + |BASE|;
    assert r == "![" + alt + "](" + BASE + path + ")";
    assert r[..a] == "![" + alt;
    assert r[a..b] == "](" + BASE;
    assert r[b..] == path + ")";
  }

  /** Inverse of the filter for an alt text of known length: recovers the
      alt text and the path, or None when `s` is not such an output. */
  function Unrender(s: string, altLength: nat): (d: Option<(string, string)>)
    ensures d.Some? ==> |d.value.0| == altLength && |s| == altLength + |BASE| + |d.value.1| + 5
  {
    var a := 2 + altLength;
    var b := a + 2 + |BASE|;
    if |s| < b + 1 then None
    else if s[..2] == "![" && s[a..a + 2] == "](" && s[a + 2..b] == BASE && s[|s| - 1] == ')'
    then Some((s[2..a], s[b..|s| - 1]))
    else None
  }

  /** Decoding an output with the length of its own alt text gives back the
      filter's arguments. */
  lemma UnrenderImageFromCdn(path: string, alt: string)
    ensures Unrender(ImageFromCdn(path, alt), |alt|) == Some((alt, path))
  {
    Sections(path, alt);
  }

  /** Whatever Unrender returns, the filter reproduces `s` from it; and when
      it returns None, no arguments with an alt text of that length produce `s`. */
  lemma ImageFromCdnUnrender(s: string, altLength: nat)
    ensures match Unrender(s, altLength)
      case Some((alt, path)) => |alt| == altLength && ImageFromCdn(path, alt) == s
      case None => forall alt, path :: |alt| == altLength ==> ImageFromCdn(path, alt) != s
  {
    match Unrender(s, altLength)
    case Some((alt, path)) =>
      var a := 2 + altLength;
      var b := a + 2 + |BASE|;
      assert s == s[..2] + s[2..a] + s[a..a + 2] + s[a + 2..b] + s[b..|s| - 1] + s[|s| - 1..];
      assert s[|s| - 1..] == ")";
    case None =>
      forall alt, path | |alt| == altLength
        ensures ImageFromCdn(path, alt) != s
      {
        UnrenderImageFromCdn(path, alt);
      }
  }

  /** For alt texts of equal length, equal outputs mean equal arguments. */
  lemma EqualLengthAltsDetermineArguments(p1: string, a1: string, p2: string, a2: string)
    requires |a1| == |a2|
    ensures ImageFromCdn(p1, a1) == ImageFromCdn(p2, a2) <==> p1 == p2 && a1 == a2
  {
    UnrenderImageFromCdn(p1, a1);
    UnrenderImageFromCdn(p2, a2);
  }

  /** With the alt text fixed, distinct paths give distinct outputs. */
  lemma InjectiveInPath(p1: string, p2: string, alt: string)
    ensures p1 != p2 ==> ImageFromCdn(p1, alt) != ImageFromCdn(p2, alt)
  {
    EqualLengthAltsDetermineArguments(p1, alt, p2, alt);
  }

  /** With the path fixed, distinct alt texts give distinct outputs: equal
      outputs over one path already force alt texts of equal length. */
  lemma InjectiveInAlt(path: string, a1: string, a2: string)
    ensures a1 != a2 ==> ImageFromCdn(path, a1) != ImageFromCdn(path, a2)
  {
    if ImageFromCdn(path, a1) == ImageFromCdn(path, a2) {
      assert |a1| == |a2|;
      EqualLengthAltsDetermineArguments(path, a1, path, a2);
    }
  }

  /** Because nothing is escaped, the equal-length condition of
      EqualLengthAltsDetermineArguments cannot be dropped when both the path
      and the alt text vary: an alt text that itself contains "](" and BASE collides with
      a longer path under an empty alt text. */
  lemma AmbiguousWithoutEscaping()
    ensures exists p1, a1, p2, a2 ::
      (p1, a1) != (p2, a2) && ImageFromCdn(p1, a1) == ImageFromCdn(p2, a2)
  {
    var p1, a1 := "](" + BASE + "x.png", "";
    var p2, a2 := "x.png", "](" + BASE;
    assert ImageFromCdn(p1, a1) == "![" + "](" + BASE + "](" + BASE + "x.png" + ")";
    assert ImageFromCdn(p2, a2) == "![" + "](" + BASE + "](" + BASE + "x.png" + ")";
    assert |p1| != |p2|;
  }

  /** Omitting the alt text is the same as passing "Image". */
  lemma DefaultAlt(path: string)
    ensures ImageFromCdn(path) == ImageFromCdn(path, "Image")
    ensures ImageFromCdn(path) == "![Image](" + BASE + path + ")"
  {
  }

  /** An empty path still gives a well-formed reference, to BASE itself. */
  lemma EmptyPath(alt: string)
    ensures ImageFromCdn("", alt) == "![" + alt + "](" + BASE + ")"
  {
  }

  /** Calling with the path alone. */
  lemma ExampleDefaultAlt()
    ensures ImageFromCdn("cats/cat1.png")
         == "![Image](" + BASE + "cats/cat1.png)"
  {
  }

  /** Calling with an alt text. */
  lemma ExampleWithAlt()
    ensures ImageFromCdn("cats/cat1.png", "A sleepy cat")
         == "![A sleepy cat](" + BASE + "cats/cat1.png)"
  {
  }

  /** An empty path leaves the URL ending at the folder. */
  lemma ExampleEmptyPath()
    ensures ImageFromCdn("")
         == "![Image](" + BASE + ")"
  {
  }

  /** An empty alt text and a path with a space; the space stays unescaped. */
  lemma ExampleNoEscaping()
    ensures ImageFromCdn("a b.png", "")
         == "![](" + BASE + "a b.png)"
  {
  }
}
