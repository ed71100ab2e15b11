/**
  The CORS allow-list of the backend server: `parseOrigins` turns any number
  of optional, comma-separated configuration values into a flat list of
  origins, and the server builds its list from FRONTEND_URL, API_URL and
  LOCAL_URL, in that order.
 */
module Server {
  import opened Wrappers
  import opened JsString

  /** JavaScript truthiness of a configuration value: `undefined` and ""
      are falsy, every other string is truthy. */
  predicate IsTruthy(v: Option<string>) {
    v.Some? && v.value != ""
  }

  /** What an entry of the allow-list looks like: non-empty, trimmed, and
      free of the separator. */
  predicate IsAllowListEntry(e: string) {
    e != "" && IsTrimmed(e) && ',' !in e
  }

  /** First stage, `filter(Boolean)` over the arguments: the truthy values,
      in argument order. */
  function PresentValues(envVars: seq<Option<string>>): (vs: seq<string>)
    ensures |vs| <= |envVars|
    ensures forall v :: v in vs <==> v != "" && Some(v) in envVars
  {
    if |envVars| == 0 then []
    else
      var rest := PresentValues(envVars[1..]);
      assert forall v :: Some(v) in envVars <==> Some(v) == envVars[0] || Some(v) in envVars[1..];
      if IsTruthy(envVars[0]) then [envVars[0].value] + rest else rest
  }

  /** `parts.map(url => url.trim())`. */
  function TrimAll(parts: seq<string>): (ts: seq<string>)
    ensures |ts| == |parts|
    ensures forall j :: 0 <= j < |ts| ==> IsTrimmed(ts[j])
  {
    seq(|parts|, j requires 0 <= j < |parts| => Trim(parts[j]))
  }

  /** Second stage, `flatMap(v => v.split(",").map(url => url.trim()))`:
      every value split on commas, each piece trimmed, all pieces in order. */
  function TrimmedSegments(vs: seq<string>): (ts: seq<string>)
    ensures forall j :: 0 <= j < |ts| ==> IsTrimmed(ts[j]) && ',' !in ts[j]
  {
    if |vs| == 0 then []
    else
      var parts := Split(vs[0], ',');
      var head := TrimAll(parts);
      assert forall j :: 0 <= j < |head| ==> ',' !in head[j] by {
        forall j | 0 <= j < |head| ensures ',' !in head[j] {
          assert head[j] == Trim(parts[j]);
          TrimChars(parts[j]);
        }
      }
      head + TrimmedSegments(vs[1..])
  }

  /** Third stage, the second `filter(Boolean)`: drops the empty strings and
      keeps everything else; `DropEmptyAppend` and `DropEmptyKeeps` show that
      duplicates are kept, in order. */
  function DropEmpty(xs: seq<string>): (ys: seq<string>)
    ensures |ys| <= |xs|
    ensures forall y :: y in ys <==> y in xs && y != ""
  {
    if |xs| == 0 then []
    else
      var rest := DropEmpty(xs[1..]);
      assert forall y :: y in xs <==> y == xs[0] || y in xs[1..];
      if xs[0] == "" then rest else [xs[0]] + rest
  }

  /** `parseOrigins(...envVars)`: every entry of the result is non-empty,
      trimmed and contains no comma. */
  function ParseOrigins(envVars: seq<Option<string>>): (origins: seq<string>)
    ensures forall j :: 0 <= j < |origins| ==> IsAllowListEntry(origins[j])
  {
    var ts := TrimmedSegments(PresentValues(envVars));
    var origins := DropEmpty(ts);
    assert forall j :: 0 <= j < |origins| ==> IsAllowListEntry(origins[j]) by {
      forall j | 0 <= j < |origins| ensures IsAllowListEntry(origins[j]) {
        assert origins[j] in ts;
      }
    }
    origins
  }

  /** What one configuration value contributes to the allow-list on its own:
      at most one entry per comma-separated piece, each non-empty and
      trimmed. */
  function OriginsOf(v: Option<string>): (origins: seq<string>)
    ensures |origins| <= if v.Some? then Occurrences(v.value, ',') + 1 else 0
    ensures forall j :: 0 <= j < |origins| ==> origins[j] != "" && IsTrimmed(origins[j])
  {
    if IsTruthy(v) then
      var ts := TrimAll(Split(v.value, ','));
      var origins := DropEmpty(ts);
      assert forall j :: 0 <= j < |origins| ==> origins[j] in ts;
      origins
    else []
  }

  /** The allow-list the server hands to the CORS middleware: FRONTEND_URL's
      origins, then API_URL's, then LOCAL_URL's. */
  function AllowedOrigins(frontendUrl: Option<string>, apiUrl: Option<string>, localUrl: Option<string>): (origins: seq<string>)
    ensures origins == OriginsOf(frontendUrl) + OriginsOf(apiUrl) + OriginsOf(localUrl)
  {
    assert [frontendUrl, apiUrl, localUrl] == [frontendUrl] + [apiUrl, localUrl];
    assert [apiUrl, localUrl] == [apiUrl] + [localUrl];
    ParseOriginsCons(frontendUrl, [apiUrl, localUrl]);
    ParseOriginsCons(apiUrl, [localUrl]);
    ParseOriginsSingle(localUrl);
    ParseOrigins([frontendUrl, apiUrl, localUrl])
  }

  // ---------------------------------------------------------------------
  // Each stage distributes over concatenation of its input.

  lemma {:induction false} PresentValuesAppend(xs: seq<Option<string>>, ys: seq<Option<string>>)
    ensures PresentValues(xs + ys) == PresentValues(xs) + PresentValues(ys)
  {
    if |xs| > 0 {
      assert (xs + ys)[0] == xs[0];
      assert (xs + ys)[1..] == xs[1..] + ys;
      PresentValuesAppend(xs[1..], ys);
    } else {
      assert xs + ys == ys;
    }
  }

  lemma {:induction false} TrimmedSegmentsAppend(xs: seq<string>, ys: seq<string>)
    ensures TrimmedSegments(xs + ys) == TrimmedSegments(xs) + TrimmedSegments(ys)
  {
    if |xs| > 0 {
      assert (xs + ys)[0] == xs[0];
      assert (xs + ys)[1..] == xs[1..] + ys;
      TrimmedSegmentsAppend(xs[1..], ys);
    } else {
      assert xs + ys == ys;
    }
  }

  lemma {:induction false} DropEmptyAppend(xs: seq<string>, ys: seq<string>)
    ensures DropEmpty(xs + ys) == DropEmpty(xs) + DropEmpty(ys)
  {
    if |xs| > 0 {
      assert (xs + ys)[0] == xs[0];
      assert (xs + ys)[1..] == xs[1..] + ys;
      DropEmptyAppend(xs[1..], ys);
    } else {
      assert xs + ys == ys;
    }
  }

  /** A list without empty strings passes the final filter unchanged. */
  lemma {:induction false} DropEmptyKeeps(xs: seq<string>)
    requires forall j :: 0 <= j < |xs| ==> xs[j] != ""
    ensures DropEmpty(xs) == xs
  {
    if |xs| > 0 {
      DropEmptyKeeps(xs[1..]);
    }
  }

  /** The result for a list of arguments is the concatenation of the results
      for its parts, in argument order. */
  lemma ParseOriginsAppend(xs: seq<Option<string>>, ys: seq<Option<string>>)
    ensures ParseOrigins(xs + ys) == ParseOrigins(xs) + ParseOrigins(ys)
  {
    PresentValuesAppend(xs, ys);
    TrimmedSegmentsAppend(PresentValues(xs), PresentValues(ys));
    DropEmptyAppend(TrimmedSegments(PresentValues(xs)), TrimmedSegments(PresentValues(ys)));
  }

  /** A single argument contributes `OriginsOf` it. */
  lemma ParseOriginsSingle(v: Option<string>)
    ensures ParseOrigins([v]) == OriginsOf(v)
  {
    assert [v][1..] == [];
    if IsTruthy(v) {
      assert PresentValues([v]) == [v.value];
      var ts := TrimAll(Split(v.value, ','));
      assert TrimmedSegments([v.value]) == ts + TrimmedSegments([]);
      assert ts + [] == ts;
    }
  }

  /** Hence `parseOrigins` is the flattening of the per-argument results. */
  lemma ParseOriginsCons(v: Option<string>, rest: seq<Option<string>>)
    ensures ParseOrigins([v] + rest) == OriginsOf(v) + ParseOrigins(rest)
  {
    ParseOriginsAppend([v], rest);
    ParseOriginsSingle(v);
  }

  // ---------------------------------------------------------------------
  // What the allow-list contains.

  /** Every entry is non-empty, is left unchanged by `trim`, and holds no
      comma. */
  lemma ParseOriginsEntries(envVars: seq<Option<string>>)
    ensures forall e :: e in ParseOrigins(envVars) ==> e != "" && Trim(e) == e && ',' !in e
  {
    forall e | e in ParseOrigins(envVars) ensures e != "" && Trim(e) == e && ',' !in e {
      TrimFixedIff(e);
    }
  }

  /** `e` is the trim of one of the comma-separated pieces of `s`. */
  ghost predicate IsTrimmedPieceOf(e: string, s: string) {
    exists part :: part in Split(s, ',') && Trim(part) == e
  }

  /** `e` is the trim of a piece of `trim` applied over `parts`. */
  lemma {:induction false} TrimAllMembers(parts: seq<string>, e: string)
    ensures e in TrimAll(parts) <==> exists part :: part in parts && Trim(part) == e
  {
    var ts := TrimAll(parts);
    if e in ts {
      var j :| 0 <= j < |ts| && ts[j] == e;
      assert parts[j] in parts && Trim(parts[j]) == e;
    }
    if exists part :: part in parts && Trim(part) == e {
      var part :| part in parts && Trim(part) == e;
      var j :| 0 <= j < |parts| && parts[j] == part;
      assert ts[j] == e;
    }
  }

  /** One argument contributes exactly the non-empty trimmed pieces of its
      value. */
  lemma OriginsOfMembers(v: Option<string>, e: string)
    ensures e in OriginsOf(v) <==> e != "" && v.Some? && IsTrimmedPieceOf(e, v.value)
  {
    if v.Some? {
      TrimAllMembers(Split(v.value, ','), e);
      if v.value == "" {
        assert Split(v.value, ',') == [""];
        assert Trim("") == "";
      }
    }
  }

  /** Soundness and completeness of the allow-list: `e` is an entry exactly
      when it is a non-empty trimmed comma-separated piece of one of the
      arguments. */
  lemma {:induction false} ParseOriginsMembers(envVars: seq<Option<string>>, e: string)
    ensures e in ParseOrigins(envVars) <==>
      e != "" && exists i :: 0 <= i < |envVars| && envVars[i].Some? && IsTrimmedPieceOf(e, envVars[i].value)
  {
    if |envVars| > 0 {
      var v, rest := envVars[0], envVars[1..];
      assert envVars == [v] + rest;
      ParseOriginsCons(v, rest);
      ParseOriginsMembers(rest, e);
      OriginsOfMembers(v, e);
      if exists i :: 0 <= i < |envVars| && envVars[i].Some? && IsTrimmedPieceOf(e, envVars[i].value) {
        var i :| 0 <= i < |envVars| && envVars[i].Some? && IsTrimmedPieceOf(e, envVars[i].value);
        if i > 0 {
          assert rest[i - 1] == envVars[i];
        }
      }
      if exists i :: 0 <= i < |rest| && rest[i].Some? && IsTrimmedPieceOf(e, rest[i].value) {
        var i :| 0 <= i < |rest| && rest[i].Some? && IsTrimmedPieceOf(e, rest[i].value);
        assert envVars[i + 1] == rest[i];
      }
    }
  }

  /** An argument contributes nothing exactly when it is absent or every
      character of it is a comma or whitespace; in particular an absent, an
      empty and a whitespace-only value contribute nothing. */
  lemma OriginsOfEmptyIff(v: Option<string>)
    ensures OriginsOf(v) == [] <==>
      v.None? || forall k :: 0 <= k < |v.value| ==> v.value[k] == ',' || IsWhitespace(v.value[k])
  {
    if v.Some? && v.value != "" {
      var s := v.value;
      var parts := Split(s, ',');
      assert OriginsOf(v) == DropEmpty(TrimAll(parts));
      DropEmptyNone(TrimAll(parts));
      if OriginsOf(v) == [] {
        forall k | 0 <= k < |s| && s[k] != ',' ensures IsWhitespace(s[k]) {
          SplitCovers(s, ',', k);
          var j :| 0 <= j < |parts| && s[k] in parts[j];
          assert TrimAll(parts)[j] == Trim(parts[j]) == "";
          TrimEmptyIff(parts[j]);
        }
      } else {
        var j :| 0 <= j < |parts| && Trim(parts[j]) != "";
        TrimEmptyIff(parts[j]);
        var m :| 0 <= m < |parts[j]| && !IsWhitespace(parts[j][m]);
        JoinContains(parts, ',', j, parts[j][m]);
      }
    }
  }

  /** The final filter leaves nothing exactly when every string is empty. */
  lemma DropEmptyNone(xs: seq<string>)
    ensures DropEmpty(xs) == [] <==> forall j :: 0 <= j < |xs| ==> xs[j] == ""
  {
    var ys := DropEmpty(xs);
    if ys != [] {
      assert ys[0] in ys;
    }
    if exists j :: 0 <= j < |xs| && xs[j] != "" {
      var j :| 0 <= j < |xs| && xs[j] != "";
      assert xs[j] in ys;
    }
  }

  /** Number of pieces that are non-empty once trimmed. */
  function CountNonBlank(parts: seq<string>): nat {
    if |parts| == 0 then 0
    else (if Trim(parts[0]) != "" then 1 else 0) + CountNonBlank(parts[1..])
  }

  /** Number of comma-separated pieces, over all arguments, that are
      non-empty once trimmed. */
  function NonBlankPieceCount(envVars: seq<Option<string>>): nat {
    if |envVars| == 0 then 0
    else
      (if envVars[0].Some? then CountNonBlank(Split(envVars[0].value, ',')) else 0)
      + NonBlankPieceCount(envVars[1..])
  }

  lemma {:induction false} DropEmptyTrimAllLength(parts: seq<string>)
    ensures |DropEmpty(TrimAll(parts))| == CountNonBlank(parts)
  {
    if |parts| > 0 {
      var ts := TrimAll(parts);
      assert ts[0] == Trim(parts[0]);
      assert ts[1..] == TrimAll(parts[1..]);
      DropEmptyTrimAllLength(parts[1..]);
    }
  }

  /** One argument contributes one entry per piece of it that is non-empty
      once trimmed. */
  lemma OriginsOfLength(v: Option<string>)
    ensures |OriginsOf(v)| == if v.Some? then CountNonBlank(Split(v.value, ',')) else 0
  {
    if v.Some? {
      if v.value == "" {
        assert Split("", ',') == [""];
        assert Trim("") == "";
        assert [""][1..] == [];
      } else {
        DropEmptyTrimAllLength(Split(v.value, ','));
      }
    }
  }

  /** Nothing is deduplicated: the allow-list has one entry per piece that is
      non-empty once trimmed. */
  lemma {:induction false} ParseOriginsLength(envVars: seq<Option<string>>)
    ensures |ParseOrigins(envVars)| == NonBlankPieceCount(envVars)
  {
    if |envVars| > 0 {
      var v, rest := envVars[0], envVars[1..];
      assert envVars == [v] + rest;
      ParseOriginsCons(v, rest);
      ParseOriginsLength(rest);
      OriginsOfLength(v);
    }
  }

  // ---------------------------------------------------------------------
  // Re-parsing.

  /** A list of well-formed entries, joined with commas and parsed as one
      argument, comes back unchanged. */
  lemma Reparse(r: seq<string>)
    requires forall j :: 0 <= j < |r| ==> IsAllowListEntry(r[j])
    ensures ParseOrigins([Some(Join(r, ','))]) == r
  {
    OriginsOfJoined(r);
    ParseOriginsSingle(Some(Join(r, ',')));
  }

  /** One argument holding a list of well-formed entries joined with commas
      contributes exactly those entries. */
  lemma OriginsOfJoined(r: seq<string>)
    requires forall j :: 0 <= j < |r| ==> IsAllowListEntry(r[j])
    ensures OriginsOf(Some(Join(r, ','))) == r
  {
    if |r| == 0 {
      assert Join(r, ',') == "";
    } else {
      JoinedSplitsBack(r);
      EntriesPassThrough(r);
    }
  }

  /** Well-formed entries joined with commas give a truthy value that splits
      back into the same entries. */
  lemma JoinedSplitsBack(r: seq<string>)
    requires forall j :: 0 <= j < |r| ==> IsAllowListEntry(r[j])
    requires |r| > 0
    ensures IsTruthy(Some(Join(r, ','))) && Split(Join(r, ','), ',') == r
  {
    JoinContains(r, ',', 0, r[0][0]);
    SplitJoin(r, ',');
  }

  /** Trimming and dropping empty pieces leaves well-formed entries alone. */
  lemma EntriesPassThrough(r: seq<string>)
    requires forall j :: 0 <= j < |r| ==> IsAllowListEntry(r[j])
    ensures DropEmpty(TrimAll(r)) == r
  {
    TrimAllFixes(r);
    DropEmptyKeeps(r);
  }

  /** `trim` over already trimmed pieces changes nothing. */
  lemma TrimAllFixes(r: seq<string>)
    requires forall j :: 0 <= j < |r| ==> IsTrimmed(r[j])
    ensures TrimAll(r) == r
  {
    forall j | 0 <= j < |r| ensures Trim(r[j]) == r[j] {
      TrimFixedIff(r[j]);
    }
  }

  /** Parsing is idempotent: joining the allow-list with commas and parsing
      it again yields the same allow-list. */
  lemma ParseIdempotent(envVars: seq<Option<string>>)
    ensures ParseOrigins([Some(Join(ParseOrigins(envVars), ','))]) == ParseOrigins(envVars)
  {
    Reparse(ParseOrigins(envVars));
  }

  /** The same origin configured in two variables is listed twice. */
  lemma DuplicatesKept(e: string)
    requires IsAllowListEntry(e)
    ensures AllowedOrigins(Some(e), Some(e), None) == [e, e]
  {
    Reparse([e]);
    ParseOriginsSingle(Some(e));
  }

  /** Two origins in FRONTEND_URL separated by a comma and some whitespace
      (such as "https://app.example.com, https://admin.example.com"), the
      other variables unset: both origins are listed, in order, without the
      whitespace. */
  lemma TwoOrigins(a: string, gap: string, b: string)
    requires IsAllowListEntry(a) && AllWhitespace(gap) && IsAllowListEntry(b)
    ensures AllowedOrigins(Some(a + [','] + gap + b), None, None) == [a, b]
  {
    OriginsOfTwo(a, gap, b);
    assert [a, b] + [] + [] == [a, b];
  }

  /** The value "a, b" alone contributes `a` and then `b`. */
  lemma OriginsOfTwo(a: string, gap: string, b: string)
    requires IsAllowListEntry(a) && AllWhitespace(gap) && IsAllowListEntry(b)
    ensures OriginsOf(Some(a + [','] + gap + b)) == [a, b]
  {
    var config := a + [','] + (gap + b);
    assert a + [','] + gap + b == config;
    assert IsTruthy(Some(config)) by {
      assert config[|a|] == ',';
    }
    assert Split(config, ',') == [a, gap + b] by {
      NoCommaInWhitespace(gap);
      SplitTwo(a, gap + b, ',');
    }
    assert TrimAll([a, gap + b]) == [a, b] by {
      TrimFixedIff(a);
      TrimPadded(gap, b, "");
      assert gap + b + "" == gap + b;
    }
    DropEmptyKeeps([a, b]);
  }

  /** A run of whitespace holds no comma. */
  lemma NoCommaInWhitespace(gap: string)
    requires AllWhitespace(gap)
    ensures ',' !in gap
  {
    WhitespaceIff(',');
  }
}
