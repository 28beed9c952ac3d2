/**
 Parsing of the comma-separated list of upstream URLs read from the process
 configuration: `raw.split(',').map(u => u.trim()).filter(Boolean)`.
 */
module UrlConfig {
  import opened JsString

  const Separator: char := ','

  /** `.map(u => u.trim())`: one trimmed piece per piece, in the same positions. */
  function TrimEach(parts: seq<string>): (r: seq<string>)
    ensures |r| == |parts|
    ensures forall i :: 0 <= i < |parts| ==> r[i] == Trim(parts[i])
  {
    if parts == [] then [] else [Trim(parts[0])] + TrimEach(parts[1..])
  }

  /**
   `.filter(Boolean)`: keeps exactly the non-empty strings. On one string it keeps
   or drops that string; with DropEmptyConcat this fixes order and repeats too.
   */
  function DropEmpty(parts: seq<string>): (r: seq<string>)
    ensures forall u :: u in r ==> u != [] && u in parts
    ensures forall u :: u in parts && u != [] ==> u in r
    ensures |parts| == 1 ==> r == (if parts[0] == [] then [] else parts)
  {
    if parts == [] then []
    else if parts[0] == [] then DropEmpty(parts[1..])
    else [parts[0]] + DropEmpty(parts[1..])
  }

  /** A URL as the parser hands it on: non-empty, trimmed at both ends, free of commas. */
  predicate WellFormedUrl(u: string) {
    u != [] && !IsWhiteSpace(u[0]) && !IsWhiteSpace(u[|u| - 1]) && Separator !in u
  }

  /** Trimmed comma-free pieces that are not empty are well-formed URLs. */
  lemma TrimmedPiecesWellFormed(parts: seq<string>)
    requires forall p :: p in parts ==> Separator !in p
    ensures forall u :: u in TrimEach(parts) && u != [] ==> WellFormedUrl(u)
  {
    var trimmed := TrimEach(parts);
    forall i | 0 <= i < |parts| && trimmed[i] != [] ensures WellFormedUrl(trimmed[i]) {
      if Separator in trimmed[i] {
        TrimKeepsCharacters(parts[i], Separator);
      }
    }
  }

  /** The configured URL list. */
  function ParseUrls(raw: string): (urls: seq<string>)
    ensures forall u :: u in urls ==> WellFormedUrl(u)
  {
    var pieces := Split(raw, Separator);
    TrimmedPiecesWellFormed(pieces);
    DropEmpty(TrimEach(pieces))
  }

  /** Mapping trim over a concatenation maps it over each part, in order. */
  lemma {:induction false} TrimEachConcat(a: seq<string>, b: seq<string>)
    ensures TrimEach(a + b) == TrimEach(a) + TrimEach(b)
    decreases |a|
  {
    if a != [] {
      assert (a + b)[1..] == a[1..] + b;
      TrimEachConcat(a[1..], b);
    } else {
      assert a + b == b;
    }
  }

  /** Filtering a concatenation filters each part and keeps them in order. */
  lemma {:induction false} DropEmptyConcat(a: seq<string>, b: seq<string>)
    ensures DropEmpty(a + b) == DropEmpty(a) + DropEmpty(b)
    decreases |a|
  {
    if a != [] {
      assert (a + b)[1..] == a[1..] + b;
      DropEmptyConcat(a[1..], b);
    } else {
      assert a + b == b;
    }
  }

  /**
   Parsing is compositional over commas: the URLs of `a,b` are those of `a`
   followed by those of `b`, so the left-to-right order of the pieces is kept.
   */
  lemma ParseUrlsConcat(a: string, b: string)
    ensures ParseUrls(a + [Separator] + b) == ParseUrls(a) + ParseUrls(b)
  {
    SplitConcat(a, b, Separator);
    TrimEachConcat(Split(a, Separator), Split(b, Separator));
    DropEmptyConcat(TrimEach(Split(a, Separator)), TrimEach(Split(b, Separator)));
  }

  /** A comma-free piece gives its trimmed self, or nothing when it is blank. */
  lemma ParseUrlsPiece(s: string)
    requires Separator !in s
    ensures ParseUrls(s) == if AllWhiteSpace(s) then [] else [Trim(s)]
  {
    SplitWithoutSeparator(s, Separator);
    TrimEmptyIff(s);
    var t := Trim(s);
    assert TrimEach([s]) == [t];
    assert DropEmpty([t]) == if t == [] then [] else [t];
  }

  /** A raw configuration string made of nothing but commas and white space. */
  predicate Blank(raw: string) {
    forall k :: 0 <= k < |raw| ==> raw[k] == Separator || IsWhiteSpace(raw[k])
  }

  lemma BlankConcat(a: string, b: string)
    ensures Blank(a + [Separator] + b) <==> Blank(a) && Blank(b)
  {
    var raw := a + [Separator] + b;
    if Blank(a) && Blank(b) {
      forall k | 0 <= k < |raw| ensures raw[k] == Separator || IsWhiteSpace(raw[k]) {
        if k < |a| {
          assert raw[k] == a[k];
        } else if k > |a| {
          assert raw[k] == b[k - |a| - 1];
        }
      }
    }
    if Blank(raw) {
      forall k | 0 <= k < |a| ensures a[k] == Separator || IsWhiteSpace(a[k]) {
        assert raw[k] == a[k];
      }
      forall k | 0 <= k < |b| ensures b[k] == Separator || IsWhiteSpace(b[k]) {
        assert raw[|a| + 1 + k] == b[k];
      }
    }
  }

  /**
   No URL is configured exactly when the raw string holds nothing but commas and
   white space; in particular the unset configuration `''` gives none.
   */
  lemma {:induction false} ParseUrlsEmptyIff(raw: string)
    ensures ParseUrls(raw) == [] <==> Blank(raw)
    decreases |raw|
  {
    if Separator in raw {
      var i :| 0 <= i < |raw| && raw[i] == Separator;
      var a, b := raw[..i], raw[i + 1..];
      assert raw == a + [Separator] + b;
      ParseUrlsConcat(a, b);
      ParseUrlsEmptyIff(a);
      ParseUrlsEmptyIff(b);
      BlankConcat(a, b);
    } else {
      ParseUrlsPiece(raw);
      assert Blank(raw) <==> AllWhiteSpace(raw);
    }
  }
}
