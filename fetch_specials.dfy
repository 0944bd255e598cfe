/** The weekly-specials scraper: picking image URLs out of the page's
    candidates (`extract_image_urls`), the fixed record list
    (`update_json_data`) and the all-or-nothing update (`main`). */
module FetchSpecials {
  import opened Common
  import opened Text

  /** The literal start of every regular-expression match. */
  const ScontentPrefix := "https://scontent"

  /** The characters of the pattern's `[^\s"']` class that the model
      excludes: space, tab, line feed, carriage return, vertical tab, form
      feed and both quotes. */
  predicate IsSpaceOrQuote(c: char)
  {
    c == ' ' || c == '\t' || c == '\n' || c == '\r' || c == '\U{B}' || c == '\U{C}'
    || c == '"' || c == '\''
  }

  /** A match of `https:\/\/scontent[^\s"']+\.jpg[^\s"']*`: the prefix, at
      least one more character, then `.jpg`, and no space or quote
      anywhere. */
  predicate IsCandidate(s: string)
  {
    StartsWith(s, ScontentPrefix)
    && (forall k | 0 <= k < |s| :: !IsSpaceOrQuote(s[k]))
    && exists i | |ScontentPrefix| < i <= |s| - 4 :: OccursAt(s, ".jpg", i)
  }

  /** The two decoding steps of the loop body, in order, each a single
      `str.replace` pass. */
  function Decode(url: string): string
  {
    Replace(Replace(url, "\\/", "/"), "&amp;", "&")
  }

  /** The small-icon heuristic, applied to the decoded URL. */
  predicate IsSmallIcon(url: string)
  {
    Contains(url, "p50x50") || Contains(url, "s50x50")
  }

  /** The decoded, non-icon URLs of an enumeration, in its order. */
  function Accepted(unique: seq<string>): seq<string>
    decreases |unique|
  {
    if unique == [] then []
    else
      var url := Decode(unique[|unique| - 1]);
      Accepted(unique[..|unique| - 1]) + (if IsSmallIcon(url) then [] else [url])
  }

  /** Python's `xs[:3]`. */
  function FirstThree(xs: seq<string>): seq<string>
  {
    if |xs| <= 3 then xs else xs[..3]
  }

  /** Everything `Accepted` keeps is the decoding of an input and no icon. */
  lemma {:induction false} AcceptedProperties(unique: seq<string>)
    ensures |Accepted(unique)| <= |unique|
    ensures forall k | 0 <= k < |Accepted(unique)| ::
              !IsSmallIcon(Accepted(unique)[k])
              && exists j | 0 <= j < |unique| :: Accepted(unique)[k] == Decode(unique[j])
    decreases |unique|
  {
    if unique != [] {
      var init := unique[..|unique| - 1];
      AcceptedProperties(init);
      forall k | 0 <= k < |Accepted(init)|
        ensures exists j | 0 <= j < |unique| :: Accepted(init)[k] == Decode(unique[j])
      {
        var j :| 0 <= j < |init| && Accepted(init)[k] == Decode(init[j]);
        assert unique[j] == init[j];
      }
    }
  }

  /** Decoding keeps the literal prefix: neither `\` nor `&` occurs in it. */
  lemma DecodeKeepsPrefix(s: string)
    requires StartsWith(s, ScontentPrefix)
    ensures StartsWith(Decode(s), ScontentPrefix)
  {
    var p, rest := ScontentPrefix, s[|ScontentPrefix|..];
    assert s == p + rest;
    assert '\\' !in p && '&' !in p;
    ReplaceKeepsPrefix(p, rest, "\\/", "/");
    var once := Replace(s, "\\/", "/");
    assert once == p + Replace(rest, "\\/", "/");
    ReplaceKeepsPrefix(p, Replace(rest, "\\/", "/"), "&amp;", "&");
  }

  /** Decoding brings in no space or quote: `/` and `&` are neither. */
  lemma DecodeAvoidsSpaceAndQuote(s: string)
    requires forall k | 0 <= k < |s| :: !IsSpaceOrQuote(s[k])
    ensures forall k | 0 <= k < |Decode(s)| :: !IsSpaceOrQuote(Decode(s)[k])
  {
    ReplaceAvoids(s, "\\/", "/", IsSpaceOrQuote);
    ReplaceAvoids(Replace(s, "\\/", "/"), "&amp;", "&", IsSpaceOrQuote);
  }

  /** A URL without escapes is returned as it was matched. */
  lemma DecodeWithoutEscapes(s: string)
    requires !Contains(s, "\\/") && !Contains(s, "&amp;")
    ensures Decode(s) == s
  {
    ReplaceAbsent(s, "\\/", "/");
    ReplaceAbsent(s, "&amp;", "&");
  }

  /** Each replacement is one pass: a doubly escaped ampersand is only
      unescaped once. */
  lemma AmpersandDecodedOnce()
    ensures Replace("&amp;amp;", "&amp;", "&") == "&amp;"
  {
  }

  /** A stretch of URL text with no space, quote, backslash or ampersand. */
  predicate IsPlainText(s: string)
  {
    forall k | 0 <= k < |s| :: !IsSpaceOrQuote(s[k]) && s[k] != '\\' && s[k] != '&'
  }

  lemma PlainTextAvoids(s: string)
    requires IsPlainText(s)
    ensures '\\' !in s && '&' !in s
  {
  }

  /** The prefix, non-empty plain text, a tail without space or quote, and
      `.jpg` make a pattern match. */
  lemma PlainMatchIsCandidate(host: string, tail: string)
    requires host != [] && IsPlainText(host)
    requires forall k | 0 <= k < |tail| :: !IsSpaceOrQuote(tail[k])
    ensures IsCandidate(ScontentPrefix + host + tail + ".jpg")
  {
    var s := ScontentPrefix + host + tail + ".jpg";
    assert IsPlainText(ScontentPrefix) && IsPlainText(".jpg");
    assert s[..|ScontentPrefix|] == ScontentPrefix;
    assert OccursAt(s, ".jpg", |s| - 4);
  }

  /** Escaped and unescaped spellings of a plain URL decode alike. */
  lemma EscapedSlashDecodes(head: string, tail: string)
    requires IsPlainText(head) && IsPlainText(tail)
    ensures Decode(head + "\\/" + tail) == head + "/" + tail
    ensures Decode(head + "/" + tail) == head + "/" + tail
  {
    var plain := head + "/" + tail;
    assert IsPlainText(plain);
    PlainTextAvoids(head);
    PlainTextAvoids(tail);
    PlainTextAvoids(plain);
    MissingCharNotContained(tail, "\\/", '\\');
    ReplaceSingle(head, tail, "\\/", "/");
    MissingCharNotContained(plain, "\\/", '\\');
    MissingCharNotContained(plain, "&amp;", '&');
    ReplaceAbsent(plain, "\\/", "/");
    ReplaceAbsent(plain, "&amp;", "&");
  }

  lemma PlainConcat(a: string, b: string)
    requires IsPlainText(a) && IsPlainText(b)
    ensures IsPlainText(a + b)
  {
  }

  /** Two URLs that decode to the same non-icon are both kept. */
  lemma AcceptedPair(escaped: string, plain: string)
    requires Decode(escaped) == plain && Decode(plain) == plain && !IsSmallIcon(plain)
    ensures Accepted([escaped, plain]) == [plain, plain]
  {
    assert [escaped, plain][..1] == [escaped];
    assert [escaped][..0] == [];
    assert Accepted([escaped]) == [plain];
  }

  /** The page can hold the same image twice, once with its slash escaped
      (`/` written `\/`) and once without: both match the pattern, they
      differ, so both survive deduplication, and both decode to the unescaped
      URL. When it is not an icon, two slots of the first three get the same
      URL. */
  lemma {:induction false} DedupBeforeDecodeKeepsTwins(host: string, name: string)
    requires host != [] && IsPlainText(host) && IsPlainText(name)
    requires !IsSmallIcon(ScontentPrefix + host + "/" + name + ".jpg")
    ensures var escaped := ScontentPrefix + host + "\\/" + name + ".jpg";
            var plain := ScontentPrefix + host + "/" + name + ".jpg";
            IsCandidate(escaped) && IsCandidate(plain)
            && EnumeratesDistinct([escaped, plain], [escaped, plain])
            && FirstThree(Accepted([escaped, plain])) == [plain, plain]
  {
    var head, tail := ScontentPrefix + host, name + ".jpg";
    var escaped, plain := head + "\\/" + tail, head + "/" + tail;
    assert escaped == ScontentPrefix + host + ("\\/" + name) + ".jpg";
    assert escaped == ScontentPrefix + host + "\\/" + name + ".jpg";
    assert plain == ScontentPrefix + host + ("/" + name) + ".jpg";
    assert plain == ScontentPrefix + host + "/" + name + ".jpg";
    assert forall k | 0 <= k < |"\\/" + name| :: !IsSpaceOrQuote(("\\/" + name)[k]);
    assert IsPlainText("/" + name) by {
      PlainConcat("/", name);
    }
    PlainMatchIsCandidate(host, "\\/" + name);
    PlainMatchIsCandidate(host, "/" + name);
    assert IsPlainText(ScontentPrefix) && IsPlainText(".jpg");
    PlainConcat(ScontentPrefix, host);
    PlainConcat(name, ".jpg");
    EscapedSlashDecodes(head, tail);
    AcceptedPair(escaped, plain);
    assert |escaped| != |plain|;
  }

  /** `unique` enumerates the distinct candidates: `list(set(candidates))`,
      in whatever order the set yields them. */
  predicate EnumeratesDistinct(unique: seq<string>, candidates: seq<string>)
  {
    (forall i, j | 0 <= i < j < |unique| :: unique[i] != unique[j])
    && (forall u | u in unique :: u in candidates)
    && (forall c | c in candidates :: c in unique)
  }

  /** `extract_image_urls` after `re.findall`: decode every distinct
      candidate, keep the non-icons in enumeration order, return the first
      three. */
  method ExtractImageUrls(candidates: seq<string>, unique: seq<string>) returns (urls: seq<string>)
    requires forall k | 0 <= k < |candidates| :: IsCandidate(candidates[k])
    requires EnumeratesDistinct(unique, candidates)
    ensures urls == FirstThree(Accepted(unique))
    ensures |urls| <= 3
    ensures |urls| < 3 ==> urls == Accepted(unique)
    ensures forall k | 0 <= k < |urls| ::
              !IsSmallIcon(urls[k])
              && StartsWith(urls[k], ScontentPrefix)
              && (forall m | 0 <= m < |urls[k]| :: !IsSpaceOrQuote(urls[k][m]))
              && exists c | c in candidates :: urls[k] == Decode(c)
  {
    var valid: seq<string> := [];
    for i := 0 to |unique|
      invariant valid == Accepted(unique[..i])
    {
      var url := unique[i];
      url := Replace(url, "\\/", "/");
      url := Replace(url, "&amp;", "&");
      if !Contains(url, "p50x50") && !Contains(url, "s50x50") {
        valid := valid + [url];
      }
      assert unique[..i + 1][..i] == unique[..i];
    }
    assert unique[..|unique|] == unique;
    urls := if |valid| <= 3 then valid else valid[..3];
    AcceptedProperties(unique);
    forall k | 0 <= k < |urls|
      ensures StartsWith(urls[k], ScontentPrefix)
      ensures forall m | 0 <= m < |urls[k]| :: !IsSpaceOrQuote(urls[k][m])
      ensures exists c | c in candidates :: urls[k] == Decode(c)
    {
      var j :| 0 <= j < |unique| && valid[k] == Decode(unique[j]);
      assert unique[j] in candidates;
      var c :| c in candidates && c == unique[j];
      var n :| 0 <= n < |candidates| && candidates[n] == c;
      DecodeKeepsPrefix(c);
      DecodeAvoidsSpaceAndQuote(c);
    }
  }

  /** `f"special{i+1}.jpg"` for the download index `i` of 0, 1 or 2. */
  function FileName(i: nat): string
    requires i < 3
  {
    "special" + [('1' as int + i) as char] + ".jpg"
  }

  /** `os.path.join(OUTPUT_DIR, FileName(i))` */
  function OutputPath(i: nat): string
    requires i < 3
  {
    "public/images/" + FileName(i)
  }

  /** `update_json_data`: the three records written to `specials.json`.
      Record `i` points at the file download `i` writes, as the site serves
      `public/` at its root. */
  function SpecialsData(): (r: seq<Special>)
    ensures |r| == 3
    ensures forall i | 0 <= i < 3 :: r[i].image == "/images/" + FileName(i)
    ensures forall i | 0 <= i < 3 :: "public" + r[i].image == OutputPath(i)
  {
    [ Special("Weekly Special", "Limited Offer", "/images/special1.jpg"),
      Special("Fresh Cut", "Butcher's Choice", "/images/special2.jpg"),
      Special("Deal of the Week", "Don't Miss Out", "/images/special3.jpg") ]
  }

  /** One `download_image(url, filename)` call. */
  datatype Download = Download(url: string, path: string)

  /** How `main` ended. */
  datatype Outcome = ScrapeFailed | NotEnoughImages | DownloadsFailed | Updated

  function CountTrue(bs: seq<bool>): nat
    decreases |bs|
  {
    if bs == [] then 0 else CountTrue(bs[..|bs| - 1]) + (if bs[|bs| - 1] then 1 else 0)
  }

  /** Three flags count to three exactly when all three are set. */
  lemma CountTrueThree(bs: seq<bool>)
    requires |bs| == 3
    ensures CountTrue(bs) == 3 <==> bs[0] && bs[1] && bs[2]
  {
    var b2, b1 := bs[..2], bs[..1];
    assert bs[..|bs| - 1] == b2 && b2[..|b2| - 1] == b1 && b1[..|b1| - 1] == [];
    assert CountTrue(b1) == (if bs[0] then 1 else 0);
    assert CountTrue(b2) == CountTrue(b1) + (if bs[1] then 1 else 0);
  }

  /** `main`: the page text (`None` when fetching failed), the regular
      expression's matches and their set enumeration, and whether each
      download succeeds. `specials.json` is written only when exactly three
      images were found and all three downloads succeeded. */
  method RunScraper(page: Option<string>, candidates: seq<string>, unique: seq<string>, downloadOk: seq<bool>)
    returns (downloads: seq<Download>, written: Option<seq<Special>>, outcome: Outcome)
    requires forall k | 0 <= k < |candidates| :: IsCandidate(candidates[k])
    requires EnumeratesDistinct(unique, candidates)
    requires |downloadOk| == 3
    ensures page.None? || page == Some("") ==>
              outcome == ScrapeFailed && downloads == [] && written.None?
    ensures page.Some? && page != Some("") && |Accepted(unique)| < 3 ==>
              outcome == NotEnoughImages && downloads == [] && written.None?
    ensures page.Some? && page != Some("") && |Accepted(unique)| >= 3 ==>
              |downloads| == 3
              && (forall i | 0 <= i < 3 ::
                    downloads[i] == Download(Accepted(unique)[i], OutputPath(i)))
              && (outcome == Updated <==> downloadOk[0] && downloadOk[1] && downloadOk[2])
              && outcome != NotEnoughImages && outcome != ScrapeFailed
    ensures written.Some? <==> outcome == Updated
    ensures written.Some? ==> written.value == SpecialsData()
  {
    downloads, written := [], None;
    if page.None? || page.value == "" {
      outcome := ScrapeFailed;
      return;
    }
    var images := ExtractImageUrls(candidates, unique);
    if |images| < 3 {
      outcome := NotEnoughImages;
      return;
    }
    var successCount := 0;
    for i := 0 to |images|
      invariant |downloads| == i
      invariant forall j | 0 <= j < i :: downloads[j] == Download(images[j], OutputPath(j))
      invariant successCount == CountTrue(downloadOk[..i])
    {
      downloads := downloads + [Download(images[i], OutputPath(i))];
      if downloadOk[i] {
        successCount := successCount + 1;
      }
      assert downloadOk[..i + 1][..i] == downloadOk[..i];
    }
    assert downloadOk[..3] == downloadOk;
    CountTrueThree(downloadOk);
    if successCount == 3 {
      written := Some(SpecialsData());
      outcome := Updated;
    } else {
      outcome := DownloadsFailed;
    }
  }
}
