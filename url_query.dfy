/** The query-presence test of the URL signers: `urllib.parse.urlsplit`
    followed by `parse_qs(query, keep_blank_values=True)`, reduced to what
    decides the separator, namely whether that dictionary is empty. */
module UrlQuery {
  import opened Prelude
  import PyText

  predicate IsUnsafe(c: char) {
    c == '\t' || c == '\r' || c == '\n'
  }

  /** `urlsplit` first deletes every ASCII tab, carriage return and line
      feed from the URL (Pythons carrying the fix for bpo-43882). */
  function RemoveUnsafe(s: string): (r: string)
    ensures |r| <= |s|
    ensures forall i :: 0 <= i < |r| ==> !IsUnsafe(r[i])
    ensures (forall i :: 0 <= i < |s| ==> !IsUnsafe(s[i])) ==> r == s
  {
    if s == [] then []
    else if IsUnsafe(s[0]) then RemoveUnsafe(s[1..])
    else [s[0]] + RemoveUnsafe(s[1..])
  }

  /** Removal works character by character: it distributes over
      concatenation... */
  lemma {:induction false} RemoveUnsafeConcat(a: string, b: string)
    ensures RemoveUnsafe(a + b) == RemoveUnsafe(a) + RemoveUnsafe(b)
    decreases |a|
  {
    if a == [] {
      assert a + b == b;
    } else {
      assert (a + b)[0] == a[0] && (a + b)[1..] == a[1..] + b;
      RemoveUnsafeConcat(a[1..], b);
    }
  }

  /** ...and on one character it drops exactly tab, CR and LF, keeping
      everything else. */
  lemma RemoveUnsafeOne(c: char)
    ensures RemoveUnsafe([c]) == if IsUnsafe(c) then [] else [c]
  {
    assert [c][1..] == [];
  }

  /** The query component `urlsplit` reports: after the first `?` of what
      lies before the first `#`. */
  function Query(url: string): string {
    PyText.AfterFirst(PyText.BeforeFirst(RemoveUnsafe(url), '#'), '?')
  }

  /** `parse_qs(query, keep_blank_values=True)` is non-empty exactly when
      some `&`-separated field is non-empty (a field without `=` counts as
      a name with a blank value). */
  predicate HasQueryParams(url: string) {
    SomeNonEmpty(PyText.Split(Query(url), '&'))
  }

  /** Some field is not the empty text. */
  predicate SomeNonEmpty(fields: seq<string>) {
    fields != [] && (fields[0] != "" || SomeNonEmpty(fields[1..]))
  }

  /** The recursive test agrees with "some field is non-empty". */
  lemma {:induction false} SomeNonEmptyIff(fields: seq<string>)
    ensures SomeNonEmpty(fields) <==> exists k :: 0 <= k < |fields| && fields[k] != ""
  {
    if fields != [] {
      SomeNonEmptyIff(fields[1..]);
      if fields[0] == "" {
        assert forall k :: 1 <= k < |fields| ==> fields[k] == fields[1..][k - 1];
        assert forall k :: 0 <= k < |fields[1..]| ==> fields[1..][k] == fields[k + 1];
      }
    }
  }

  /** `"&" if query_params else "?"`. */
  function Separator(url: string): string {
    if HasQueryParams(url) then "&" else "?"
  }

  /** The separator is a single character. */
  lemma SeparatorLength(url: string)
    ensures |Separator(url)| == 1
  {
  }

  /** A URL has query parameters exactly when its query holds a character
      other than `&`. */
  lemma HasQueryParamsIff(url: string)
    ensures HasQueryParams(url) <==> exists i :: 0 <= i < |Query(url)| && Query(url)[i] != '&'
  {
    var q := Query(url);
    assert HasQueryParams(url) == SomeNonEmpty(PyText.Split(q, '&'));
    SomeFieldIff(q);
    SomeNonEmptyIff(PyText.Split(q, '&'));
  }

  /** Some `&`-field of `q` is non-empty exactly when `q` holds a character
      other than `&`. */
  lemma SomeFieldIff(q: string)
    ensures (exists k :: 0 <= k < |PyText.Split(q, '&')| && PyText.Split(q, '&')[k] != "")
        <==> exists i :: 0 <= i < |q| && q[i] != '&'
  {
    PyText.SplitAllEmpty(q, '&');
  }

  /** A URL without `?` before its fragment always gets `?`. */
  lemma SeparatorChoice(url: string)
    ensures '?' !in PyText.BeforeFirst(RemoveUnsafe(url), '#') ==> Separator(url) == "?"
  {
    var h := PyText.BeforeFirst(RemoveUnsafe(url), '#');
    if '?' !in h {
      var p := PyText.BeforeFirst(h, '?');
      assert |p| < |h| ==> h[|p|] in h;
      assert Query(url) == "";
      assert PyText.Split("", '&') == [""];
      assert !SomeNonEmpty([""][1..]);
    }
  }
}
