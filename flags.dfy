/**
  The `-u` command-line flag: a comma-separated list of Traefik base URLs kept
  in a `urlList`, which the flag package fills through `Set` and prints through
  `String`.
 */
module Flags {
  import opened Wrappers
  import opened Strings

  /** The pieces of `ps` that are not empty, in their order. */
  function NonEmpty(ps: seq<string>): (r: seq<string>)
    ensures forall i | 0 <= i < |r| :: r[i] != ""
    ensures forall x :: x in r <==> x in ps && x != ""
    ensures |r| <= |ps|
  {
    if ps == [] then []
    else (if ps[0] == "" then [] else [ps[0]]) + NonEmpty(ps[1..])
  }

  /** The URLs that one `Set(s)` appends: every non-empty comma-separated piece of `s`. */
  function Pieces(s: string): seq<string>
  {
    if s == "" then [] else NonEmpty(Split(s))
  }

  /** A list whose every URL is non-empty and free of commas, as `Set` builds them. */
  predicate WellFormed(urls: seq<string>)
  {
    forall i | 0 <= i < |urls| :: urls[i] != "" && ',' !in urls[i]
  }

  /** What `String` prints: every URL followed by a comma, the last one included. */
  function Serialized(urls: seq<string>): string
  {
    if urls == [] then "" else urls[0] + "," + Serialized(urls[1..])
  }

  lemma {:induction false} NonEmptyAppend(ps: seq<string>, x: string)
    ensures NonEmpty(ps + [x]) == NonEmpty(ps) + (if x == "" then [] else [x])
  {
    if ps != [] {
      assert (ps + [x])[1..] == ps[1..] + [x];
      NonEmptyAppend(ps[1..], x);
    } else {
      assert [x][1..] == [];
    }
  }

  lemma {:induction false} SerializedAppend(urls: seq<string>, x: string)
    ensures Serialized(urls + [x]) == Serialized(urls) + x + ","
  {
    if urls != [] {
      assert (urls + [x])[1..] == urls[1..] + [x];
      SerializedAppend(urls[1..], x);
    } else {
      assert [x][1..] == [];
    }
  }

  /** Whatever `Set` is given, the pieces it appends are non-empty and comma-free,
      and an empty argument appends nothing. */
  lemma PiecesWellFormed(s: string)
    ensures WellFormed(Pieces(s))
    ensures s == "" ==> Pieces(s) == []
    ensures forall x :: x in Pieces(s) <==> x in Split(s) && x != ""
  {
    var ps := Pieces(s);
    if s != "" {
      forall i | 0 <= i < |ps|
        ensures ps[i] != "" && ',' !in ps[i]
      {
        assert ps[i] in Split(s);
      }
    }
  }

  /** Every list built from the empty list by calls of `Set` is well formed. */
  lemma SetKeepsWellFormed(urls: seq<string>, s: string)
    requires WellFormed(urls)
    ensures WellFormed(urls + Pieces(s))
  {
    PiecesWellFormed(s);
  }

  /** Printing a well-formed list and parsing the text back on an empty list gives the list again. */
  lemma {:induction false} StringThenSet(urls: seq<string>)
    requires WellFormed(urls)
    ensures Pieces(Serialized(urls)) == urls
  {
    if urls == [] {
    } else {
      var rest := urls[1..];
      assert WellFormed(rest);
      StringThenSet(rest);
      SplitPrefix(urls[0], Serialized(rest));
      var t := urls[0] + "," + Serialized(rest);
      assert t != "";
      if Serialized(rest) == "" {
        assert Split("") == [""];
        assert Split(t) == [urls[0]] + [""];
        assert NonEmpty([""]) == [];
      } else {
        assert NonEmpty(Split(t)) == [urls[0]] + NonEmpty(Split(Serialized(rest)));
      }
    }
  }

  /** The trailing comma: for a non-empty list the printed text is the comma-joined
      list followed by one more comma. */
  lemma {:induction false} StringTrailingComma(urls: seq<string>)
    requires urls != []
    ensures Serialized(urls) == Join(urls) + ","
    ensures Serialized(urls)[|Serialized(urls)| - 1] == ','
  {
    if |urls| > 1 {
      StringTrailingComma(urls[1..]);
    } else {
      assert urls[1..] == [];
    }
  }

  /** The two-URL case that shows the trailing comma. */
  lemma StringOfTwoUrls()
    ensures Serialized(["https://a", "https://b"]) == "https://a,https://b,"
  {
    assert ["https://a", "https://b"][1..] == ["https://b"];
    assert ["https://b"][1..] == [];
  }

  /** The separator as evidently intended (`strings.Join`): no trailing comma, and
      parsing the joined text back still gives the list. */
  lemma {:induction false} JoinThenSet(urls: seq<string>)
    requires WellFormed(urls)
    ensures Pieces(Join(urls)) == urls
    ensures urls != [] ==> Join(urls)[|Join(urls)| - 1] != ','
  {
    if |urls| == 0 {
    } else if |urls| == 1 {
      SplitNoComma(urls[0]);
      assert NonEmpty([urls[0]]) == [urls[0]];
      assert urls[0][|urls[0]| - 1] in urls[0];
    } else {
      var rest := urls[1..];
      assert WellFormed(rest);
      JoinThenSet(rest);
      SplitPrefix(urls[0], Join(rest));
      assert Join(rest) != "" by {
        assert rest[0] != "";
        if |rest| > 1 {
          assert Join(rest) == rest[0] + "," + Join(rest[1..]);
        }
      }
      assert NonEmpty(Split(Join(urls))) == [urls[0]] + NonEmpty(Split(Join(rest)));
      assert Join(urls) == urls[0] + "," + Join(rest);
      assert Join(urls)[|Join(urls)| - 1] == Join(rest)[|Join(rest)| - 1];
    }
  }

  /** The `urlList` flag value. */
  class UrlList {
    var urls: seq<string>

    ghost predicate Valid()
      reads this
    {
      WellFormed(urls)
    }

    constructor ()
      ensures urls == [] && Valid()
    {
      urls := [];
    }

    /** `urlList.Set`: append every non-empty comma-separated piece; never an error. */
    method Set(urlsString: string) returns (err: Option<string>)
      modifies this
      ensures err == None
      ensures urls == old(urls) + Pieces(urlsString)
      ensures old(Valid()) ==> Valid()
    {
      if urlsString != "" {
        var pieces := Split(urlsString);
        var i := 0;
        while i < |pieces|
          invariant 0 <= i <= |pieces|
          invariant urls == old(urls) + NonEmpty(pieces[..i])
        {
          assert pieces[..i + 1] == pieces[..i] + [pieces[i]];
          NonEmptyAppend(pieces[..i], pieces[i]);
          if pieces[i] != "" {
            urls := urls + [pieces[i]];
          }
          i := i + 1;
        }
        assert pieces[..i] == pieces;
      }
      err := None;
      if old(Valid()) {
        SetKeepsWellFormed(old(urls), urlsString);
      }
    }

    /** `urlList.String`: each URL followed by a comma (the guard `i != len` never fails). */
    method String() returns (s: string)
      ensures s == Serialized(urls)
    {
      var builder := new Builder();
      for i := 0 to |urls|
        invariant builder.text == Serialized(urls[..i])
      {
        assert urls[..i + 1] == urls[..i] + [urls[i]];
        SerializedAppend(urls[..i], urls[i]);
        builder.WriteString(urls[i]);
        if i != |urls| {
          builder.WriteString(",");
        }
      }
      assert urls[..|urls|] == urls;
      s := builder.text;
    }
  }
}
