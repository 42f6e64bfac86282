/**
  When validating an answer a second time changes it: exactly when a markdown
  link stands in the result, and exactly which texts leave one there.
 */
module Revalidation {
  import opened Wrappers
  import opened Chars
  import opened Citations
  import opened CitationScan
  import opened SurvivingUrls

  ghost predicate NoLinks(s: string) {
    forall i :: 0 <= i < |s| ==> LinkAt(s, i).None?
  }

  ghost predicate ColonFreeIds(sources: seq<Source>) {
    forall k :: 0 <= k < |sources| ==> ColonFree(sources[k].id)
  }

  // ------------------------------------------------------- counting colons

  function Colons(s: string): nat {
    if s == "" then 0 else Colons(s[1..]) + if s[0] == ':' then 1 else 0
  }

  lemma {:induction false} ColonsConcat(a: string, b: string)
    ensures Colons(a + b) == Colons(a) + Colons(b)
  {
    if a == "" {
      assert a + b == b;
    } else {
      ColonsConcat(a[1..], b);
      assert (a + b)[1..] == a[1..] + b;
    }
  }

  lemma {:induction false} NoColons(s: string)
    requires ColonFree(s)
    ensures Colons(s) == 0
  {
    if s != "" { NoColons(s[1..]); }
  }

  lemma {:induction false} SomeColon(s: string, k: nat)
    requires k < |s| && s[k] == ':'
    ensures Colons(s) > 0
  {
    if k > 0 { SomeColon(s[1..], k - 1); }
  }

  lemma ColonsSplit(s: string, a: nat, b: nat)
    requires a <= b <= |s|
    ensures Colons(s[a..]) == Colons(s[a..b]) + Colons(s[b..])
  {
    ColonsConcat(s[a..b], s[b..]);
    assert s[a..] == s[a..b] + s[b..];
  }

  lemma ReferenceHasNoColon(sources: seq<Source>, url: string)
    requires ColonFreeIds(sources)
    ensures Colons(Reference(sources, url)) == 0
  {
    hide ByUrl, Colons, Reference;
    var id := ReferenceShape(sources, url);
    NoColons("[" + id + "]");
  }

  lemma SchemeHasColon(s: string, i: nat)
    requires SchemeEnd(s, i) > i
    ensures i + 5 < SchemeEnd(s, i) <= |s| && (s[i + 4] == ':' || s[i + 5] == ':')
  {
    if Matches(s, i, "http://") {
      assert s[i + 4] == "http://"[4];
    } else {
      assert s[i + 5] == "https://"[5];
    }
  }

  lemma UrlHasColon(s: string, i: nat, e: nat)
    requires SchemeEnd(s, i) > i && SchemeEnd(s, i) <= e <= |s|
    ensures Colons(s[i..e]) > 0
  {
    hide SchemeEnd, Colons;
    SchemeHasColon(s, i);
    var k := if s[i + 4] == ':' then 4 else 5;
    assert s[i..e][k] == s[i + k];
    SomeColon(s[i..e], k);
  }

  /** Replacing a link or a URL loses a colon. */
  lemma HitDropsColon(pass: Pass, s: string, i: nat, sources: seq<Source>)
    requires i < |s| && !pass.Markers? && ColonFreeIds(sources) && Match(pass, s, i, sources).Some?
    ensures Colons(Match(pass, s, i, sources).value.text) < Colons(s[i..Match(pass, s, i, sources).value.end])
  {
    hide Colons, Reference, ByUrl, ColonFreeIds, RStripChars, SchemeEnd, RunEnd;
    match pass {
      case Links =>
        LinkDropsColon(s, i, LinkAt(s, i).value, RStripChars(s[LinkAt(s, i).value.labelEnd + 2..LinkAt(s, i).value.urlEnd], "/"), sources);
      case RawUrls =>
        ReferenceHasNoColon(sources, RStripChars(RStripChars(s[i..UrlEnd(s, i)], ".,;:"), "/"));
        UrlHasColon(s, i, UrlEnd(s, i));
    }
  }

  lemma LinkDropsColon(s: string, i: nat, link: Link, url: string, sources: seq<Source>)
    requires i < |s| && LinkAt(s, i) == Some(link) && ColonFreeIds(sources)
    ensures Colons(s[i + 1..link.labelEnd] + " " + Reference(sources, url)) < Colons(s[i..link.urlEnd + 1])
  {
    hide Colons, Reference, ColonFreeIds, SchemeEnd, RunEnd;
    var caption, u := s[i + 1..link.labelEnd], link.labelEnd + 2;
    ReferenceHasNoColon(sources, url);
    NoColons(" ");
    ColonsConcat(caption, " ");
    ColonsConcat(caption + " ", Reference(sources, url));
    UrlHasColon(s, u, link.urlEnd);
    ColonsMiddle(s, i, i + 1, link.labelEnd, u, link.urlEnd, link.urlEnd + 1);
  }

  lemma ColonsMiddle(s: string, a: nat, b: nat, c: nat, d: nat, e: nat, f: nat)
    requires a <= b <= c <= d <= e <= f <= |s|
    ensures Colons(s[a..f]) >= Colons(s[b..c]) + Colons(s[d..e])
  {
    hide Colons;
    ColonsSplit(s[..f], a, b);
    ColonsSplit(s[..f], b, c);
    ColonsSplit(s[..f], c, d);
    ColonsSplit(s[..f], d, e);
    assert s[..f][a..] == s[a..f] && s[..f][b..c] == s[b..c] && s[..f][d..e] == s[d..e];
  }

  /** A pass over links or URLs loses a colon unless it finds nothing at all. */
  lemma {:induction false} PassDropsColons(pass: Pass, s: string, a: nat, sources: seq<Source>)
    requires a <= |s| && !pass.Markers? && ColonFreeIds(sources)
    ensures Colons(Sub(pass, s, a, sources)) <= Colons(s[a..])
    ensures Colons(Sub(pass, s, a, sources)) == Colons(s[a..]) ==>
              forall k :: a <= k < |s| ==> Match(pass, s, k, sources).None?
    decreases |s| - a
  {
    hide Match, Colons, ColonFreeIds;
    if a == |s| {
      assert s[a..] == "";
    } else {
      match Match(pass, s, a, sources) {
        case None =>
          PassDropsColons(pass, s, a + 1, sources);
          ColonsConcat([s[a]], Sub(pass, s, a + 1, sources));
          ColonsSplit(s, a, a + 1);
          assert s[a..a + 1] == [s[a]];
        case Some(hit) =>
          PassDropsColons(pass, s, hit.end, sources);
          HitDropsColon(pass, s, a, sources);
          ColonsConcat(hit.text, Sub(pass, s, hit.end, sources));
          ColonsSplit(s, a, hit.end);
      }
    }
  }

  lemma NoLinksAreNoMatches(s: string, sources: seq<Source>)
    ensures NoLinks(s) <==> forall k :: 0 <= k < |s| ==> Match(Links, s, k, sources).None?
  {
    hide LinkAt, Reference, ByUrl, RStripChars;
    if NoLinks(s) {
      forall k | 0 <= k < |s| ensures Match(Links, s, k, sources).None? {
        assert LinkAt(s, k).None?;
      }
    }
    if forall k :: 0 <= k < |s| ==> Match(Links, s, k, sources).None? {
      forall i | 0 <= i < |s| ensures LinkAt(s, i).None? {
        assert Match(Links, s, i, sources).None?;
      }
    }
  }

  /** The link pass leaves a text alone exactly when the text holds no link. */
  lemma LinkPassKeepsIffNoLinks(s: string, sources: seq<Source>)
    requires ColonFreeIds(sources)
    ensures Sub(Links, s, 0, sources) == s <==> NoLinks(s)
    ensures NoLinks(s) ==> !Flags(Links, s, 0, sources)
  {
    hide Match, Colons, ColonFreeIds, NoLinks, Sub, Flags;
    PassDropsColons(Links, s, 0, sources);
    NoLinksAreNoMatches(s, sources);
    assert s[0..] == s;
    if NoLinks(s) {
      forall j | 0 <= j < |s| ensures Quiet(Links, s, j, sources) {
      }
      QuietPass(Links, s, 0, sources);
    }
  }

  /** Validating a result again changes nothing and flags nothing exactly when no link stands in it. */
  lemma RevalidationIsQuietIffNoLinks(markdown: string, sources: seq<Source>)
    requires PlainIds(sources) && ColonFreeIds(sources)
    ensures var r := Validated(markdown, sources).0;
            && (Validated(r, sources) == (r, []) <==> NoLinks(r))
            && (Validated(r, sources).0 == r <==> NoLinks(r))
  {
    hide Match, Colons, NoLinks, Sub, Flags, PlainIds, MarkersValid, Guarded;
    var r := Validated(markdown, sources).0;
    EveryMarkerNamesASource(markdown, sources);
    UrlPassLeavesOnlyGuarded(Entering(markdown, sources), sources);
    QuietOnValidMarkers(r, sources);
    if NoLinks(r) { SettledAgain(r, sources); }
    if Validated(r, sources).0 == r {
      var b := Sub(Links, r, 0, sources);
      PassDropsColons(Links, r, 0, sources);
      PassDropsColons(RawUrls, b, 0, sources);
      assert r[0..] == r && b[0..] == b;
      NoLinksAreNoMatches(r, sources);
    }
  }

  lemma SettledAgain(r: string, sources: seq<Source>)
    requires NoLinks(r) && MarkersValid(r, sources) && Guarded(r)
    ensures Validated(r, sources) == (r, [])
  {
    hide Match, MarkersValid, Guarded, LinkAt;
    SettledTextIsUnchanged(r, sources);
  }

  lemma QuietOnValidMarkers(s: string, sources: seq<Source>)
    requires MarkersValid(s, sources)
    ensures Sub(Markers, s, 0, sources) == s && !Flags(Markers, s, 0, sources)
  {
    hide IsMarker, IsId;
    forall j | 0 <= j < |s| ensures Quiet(Markers, s, j, sources) {
      MarkerAtIsMarker(s, j);
    }
    QuietPass(Markers, s, 0, sources);
    assert s[0..] == s;
  }
}
