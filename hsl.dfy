/** The HSL (Helsinki Region Transport) tables and the helpers that read
    them: stop names, the stop list of a route's long name, the Overpass
    area of the member cities and the city of a bus code prefix. */
module Hsl {

  import opened Outcomes
  import opened Strs

  /** A dict as its items in insertion order. */
  type Table = seq<(string, string)>

  /** `d.get(k)`: the value of the first item with key `k`. */
  function Find(table: Table, k: string): (r: Option<string>)
    ensures r.None? <==> forall i :: 0 <= i < |table| ==> table[i].0 != k
    ensures r.Some? ==> exists i :: 0 <= i < |table| && table[i] == (k, r.value)
  {
    if |table| == 0 then None
    else if table[0].0 == k then Some(table[0].1)
    else
      var r := Find(table[1..], k);
      assert r.Some? ==> exists i :: 0 <= i < |table[1..]| && table[1..][i] == (k, r.value);
      r
  }

  predicate DistinctKeys(table: Table)
  {
    forall a, b :: 0 <= a < b < |table| ==> table[a].0 != table[b].0
  }

  /** With distinct keys, `d[k] == v` exactly for the items `(k, v)`. */
  lemma {:induction false} FindDistinct(table: Table, k: string, v: string)
    requires DistinctKeys(table)
    ensures Find(table, k) == Some(v) <==> exists i :: 0 <= i < |table| && table[i] == (k, v)
  {
    if |table| > 0 && table[0].0 != k {
      FindDistinct(table[1..], k, v);
      if exists i :: 0 <= i < |table| && table[i] == (k, v) {
        var i :| 0 <= i < |table| && table[i] == (k, v);
        assert table[1..][i - 1] == (k, v);
      }
    }
  }

  // ---------------------------------------------------------------- tables

  /** The member cities of HSL. */
  const Cities: seq<string> := ["Helsinki", "Espoo", "Vantaa", "Kirkkonummi", "Kerava",
    "Kauniainen", "Sipoo", "Tuusula", "Siuntio"]

  /** `prefix2city`: the bus code prefix assigned to each city. */
  const Prefix2City: Table := [
    ("", "Helsinki"), ("E", "Espoo"), ("H", "Helsinki"), ("Hy", "Hyvinkää"),
    ("Jä", "Järvenpää"), ("Ka", "Kauniainen"), ("Ke", "Kerava"), ("Ki", "Kirkkonummi"),
    ("La", "Lahti"), ("Mä", "Mäntsälä"), ("Nu", "Nurmijärvi"), ("Pn", "Pornainen"),
    ("Po", "Porvoo"), ("Ri", "Riihimäki"), ("Si", "Sipoo"), ("So", "Siuntio"),
    ("Tu", "Tuusula"), ("V", "Vantaa")]

  /** `city2ref`: the municipality number of each city. */
  const City2Ref: Table := [
    ("Espoo", "049"), ("Helsinki", "091"), ("Hyvinkää", "106"), ("Järvenpää", "186"),
    ("Kauniainen", "235"), ("Kerava", "245"), ("Kirkkonummi", "257"), ("Kouvola", "286"),
    ("Lahti", "398"), ("Mäntsälä", "505"), ("Nurmijärvi", "543"), ("Pornainen", "611"),
    ("Porvoo", "638"), ("Riihimäki", "694"), ("Sipoo", "753"), ("Siuntio", "755"),
    ("Tuusula", "858"), ("Vantaa", "092")]

  // ----------------------------------------------------------- city2prefixes

  /** The `defaultdict(list)` built by appending `p` to the entry of `c` for
      each item `(p, c)` of the first `n` items. */
  function Inverted(items: Table, n: nat): map<string, seq<string>>
    requires n <= |items|
  {
    if n == 0 then map[]
    else
      var m := Inverted(items, n - 1);
      var c := items[n - 1].1;
      var p := items[n - 1].0;
      m[c := if c in m then m[c] + [p] else [p]]
  }

  /** `city2prefixes[c]`: a missing city reads as the empty list. */
  function CityPrefixes(items: Table, c: string): seq<string>
  {
    var m := Inverted(items, |items|);
    if c in m then m[c] else []
  }

  /** `[p for (p, c2) in items[:n] if c2 == c]`. */
  function PrefixesOf(items: Table, n: nat, c: string): seq<string>
    requires n <= |items|
  {
    if n == 0 then []
    else if items[n - 1].1 == c then PrefixesOf(items, n - 1, c) + [items[n - 1].0]
    else PrefixesOf(items, n - 1, c)
  }

  /** A city has an entry iff some prefix maps to it. */
  lemma {:induction false} InvertedKeys(items: Table, n: nat, c: string)
    requires n <= |items|
    ensures c in Inverted(items, n) <==> exists i :: 0 <= i < n && items[i].1 == c
  {
    if n > 0 {
      InvertedKeys(items, n - 1, c);
    }
  }

  /** The entry of a city lists its prefixes in table order. */
  lemma {:induction false} InvertedSpec(items: Table, n: nat, c: string)
    requires n <= |items|
    ensures (if c in Inverted(items, n) then Inverted(items, n)[c] else []) == PrefixesOf(items, n, c)
  {
    if n > 0 {
      InvertedSpec(items, n - 1, c);
      var m := Inverted(items, n - 1);
      if items[n - 1].1 != c {
        assert c in Inverted(items, n) <==> c in m;
        assert c in m ==> Inverted(items, n)[c] == m[c];
      }
    }
  }

  lemma {:induction false} PrefixesOfMember(items: Table, n: nat, c: string, p: string)
    requires n <= |items|
    ensures p in PrefixesOf(items, n, c) <==> exists i :: 0 <= i < n && items[i] == (p, c)
  {
    if n > 0 {
      PrefixesOfMember(items, n - 1, c, p);
    }
  }

  /** `city2prefixes` inverts `prefix2city`: `p` is listed for `c` iff
      `prefix2city[p] == c`, and the prefixes keep their table order. */
  lemma {:induction false} City2PrefixesInverse(items: Table, c: string, p: string)
    requires DistinctKeys(items)
    ensures CityPrefixes(items, c) == PrefixesOf(items, |items|, c)
    ensures p in CityPrefixes(items, c) <==> Find(items, p) == Some(c)
  {
    InvertedSpec(items, |items|, c);
    PrefixesOfMember(items, |items|, c, p);
    FindDistinct(items, p, c);
  }

  /** Helsinki has both the empty prefix and "H". */
  lemma {:induction false} HelsinkiPrefixes()
    ensures "" in CityPrefixes(Prefix2City, "Helsinki") && "H" in CityPrefixes(Prefix2City, "Helsinki")
  {
    assert Prefix2City[0] == ("", "Helsinki") && Prefix2City[2] == ("H", "Helsinki");
    InvertedSpec(Prefix2City, |Prefix2City|, "Helsinki");
    PrefixesOfMember(Prefix2City, |Prefix2City|, "Helsinki", "");
    PrefixesOfMember(Prefix2City, |Prefix2City|, "Helsinki", "H");
  }

  // -------------------------------------------------------- get_overpass_area

  /** The text of an area clause before the city name. */
  const AreaHead := "area[boundary=administrative]" + "[admin_level=8]" + "[name=\""

  /** One Overpass area clause for a city and its municipality number. */
  function AreaClause(c: string, ref: string): string
  {
    AreaHead + c + "\"][ref=" + ref + "];"
  }

  /** The clauses of the first `n` cities; a city without a number raises
      KeyError. */
  function AreaClauses(clist: seq<string>, refs: Table, n: nat): (r: Result<seq<string>>)
    requires n <= |clist|
    ensures r.Err? <==> exists i :: 0 <= i < n && Find(refs, clist[i]).None?
    ensures r.Err? ==> r.error == KeyError
    ensures r.Ok? ==> (|r.value| == n &&
      forall i :: 0 <= i < n ==> r.value[i] == AreaClause(clist[i], Find(refs, clist[i]).value))
  {
    if n == 0 then Ok([])
    else
      match AreaClauses(clist, refs, n - 1)
      case Err(e) => Err(e)
      case Ok(cs) =>
        match Find(refs, clist[n - 1])
        case None => Err(KeyError)
        case Some(ref) => Ok(cs + [AreaClause(clist[n - 1], ref)])
  }

  /** hsl.get_overpass_area, with `city2ref` as a parameter. */
  function GetOverpassArea(clist: seq<string>, refs: Table): (r: Result<string>)
    ensures r.Err? <==> exists i :: 0 <= i < |clist| && Find(refs, clist[i]).None?
    ensures r.Err? ==> r.error == KeyError
    ensures r.Ok? ==> (AreaClauses(clist, refs, |clist|).Ok? &&
      r.value == "(" + Join(AreaClauses(clist, refs, |clist|).value, " ") + ")->.hel;")
  {
    match AreaClauses(clist, refs, |clist|)
    case Err(e) => Err(e)
    case Ok(cs) => Ok("(" + Join(cs, " ") + ")->.hel;")
  }

  lemma {:induction false} CountCharNone(s: string, c: char)
    requires c !in s
    ensures CountChar(s, c) == 0
  {
    if |s| > 0 {
      CountCharNone(s[..|s| - 1], c);
    }
  }

  /** Every member city has a municipality number, so building the
      module-level `overpass_area` raises nothing. */
  lemma {:induction false} MemberCitiesArea()
    ensures GetOverpassArea(Cities, City2Ref).Ok?
  {
    AllNumbered(Cities, City2Ref, [1, 0, 17, 6, 5, 4, 14, 16, 15]);
  }

  lemma {:induction false} AllNumbered(clist: seq<string>, refs: Table, at: seq<nat>)
    requires |at| == |clist|
    requires forall i :: 0 <= i < |clist| ==> at[i] < |refs| && refs[at[i]].0 == clist[i]
    ensures GetOverpassArea(clist, refs).Ok?
  {
    forall i | 0 <= i < |clist|
      ensures Find(refs, clist[i]).Some?
    {
      assert refs[at[i]].0 == clist[i];
    }
  }

  /** Each clause ends in the only `;` it holds (for a name and a number
      without one). */
  lemma {:induction false} AreaClauseSemicolons(c: string, ref: string)
    requires CountChar(c, ';') == 0 && CountChar(ref, ';') == 0
    ensures CountChar(AreaClause(c, ref), ';') == 1
  {
    var head := AreaHead;
    assert ';' !in head by {
      assert ';' !in "area[boundary=administrative]" && ';' !in "[admin_level=8]" && ';' !in "[name=\"";
    }
    CountCharNone(head, ';');
    CountCharNone("\"][ref=", ';');
    CountCharConcat(head, c, ';');
    CountCharConcat(head + c, "\"][ref=", ';');
    CountCharConcat(head + c + "\"][ref=", ref, ';');
    CountCharConcat(head + c + "\"][ref=" + ref, "];", ';');
    assert CountChar("];", ';') == 1 by {
      assert "];"[..1] == "]";
      CountCharNone("]", ';');
    }
  }

  /** Clauses with one `;` each, joined by spaces, hold one `;` apiece. */
  lemma {:induction false} JoinSemicolons(cs: seq<string>)
    requires forall i :: 0 <= i < |cs| ==> CountChar(cs[i], ';') == 1
    ensures CountChar(Join(cs, " "), ';') == |cs|
  {
    if |cs| == 0 {
      CountCharNone("", ';');
    } else if |cs| > 1 {
      JoinSemicolons(cs[1..]);
      CountCharNone(" ", ';');
      CountCharConcat(cs[0], " ", ';');
      CountCharConcat(cs[0] + " ", Join(cs[1..], " "), ';');
    }
  }

  /** One area clause per city, wrapped in `(` ... `)->.hel;`: for names and
      numbers without `;`, the area holds one `;` per city plus the final
      one. */
  lemma {:induction false} OverpassAreaClauses(clist: seq<string>, refs: Table)
    requires forall i :: 0 <= i < |clist| ==> CountChar(clist[i], ';') == 0
    requires forall i :: 0 <= i < |refs| ==> CountChar(refs[i].1, ';') == 0
    requires GetOverpassArea(clist, refs).Ok?
    ensures var area := GetOverpassArea(clist, refs).value;
      |area| >= 9 && area[0] == '(' && area[|area| - 8..] == ")->.hel;" &&
      CountChar(area, ';') == |clist| + 1
  {
    var cs := AreaClauses(clist, refs, |clist|).value;
    forall i | 0 <= i < |cs|
      ensures CountChar(cs[i], ';') == 1
    {
      var ref := Find(refs, clist[i]).value;
      var k :| 0 <= k < |refs| && refs[k] == (clist[i], ref);
      AreaClauseSemicolons(clist[i], ref);
    }
    JoinSemicolons(cs);
    AreaWrapping(Join(cs, " "));
  }

  /** The parentheses and the `->.hel;` around the joined clauses add one
      `;`. */
  lemma {:induction false} AreaWrapping(body: string)
    ensures var area := "(" + body + ")->.hel;";
      |area| >= 9 && area[0] == '(' && area[|area| - 8..] == ")->.hel;" &&
      CountChar(area, ';') == CountChar(body, ';') + 1
  {
    CountCharNone("(", ';');
    CountCharConcat("(", body, ';');
    CountCharConcat("(" + body, ")->.hel;", ';');
    assert CountChar(")->.hel;", ';') == 1 by {
      assert ")->.hel;"[..7] == ")->.hel";
      CountCharNone(")->.hel", ';');
    }
  }

  // ------------------------------------------------------------ get_stopname

  /** `ps.get(k, None)`; a JSON null reads as `None` too. */
  function Get(ps: map<string, Option<string>>, k: string): Option<string>
  {
    if k in ps then ps[k] else None
  }

  /** `"{}".format(v)`: `None` prints as "None". */
  function Show(v: Option<string>): string
  {
    if v.Some? then v.value else "None"
  }

  /** The platform code is given, non-empty and starts with a digit. */
  predicate NumberedPlatform(ps: map<string, Option<string>>)
  {
    var plat := Get(ps, "platformCode");
    plat.Some? && |plat.value| > 0 && IsDigit(plat.value[0])
  }

  /** hsl.get_stopname. */
  function GetStopName(ps: map<string, Option<string>>): (r: Option<string>)
    ensures !NumberedPlatform(ps) ==> r == Get(ps, "name")
    ensures NumberedPlatform(ps) ==> r.Some?
  {
    if NumberedPlatform(ps) then
      Some(Show(Get(ps, "name")) + ", laituri " + Get(ps, "platformCode").value)
    else Get(ps, "name")
  }

  /** A named stop keeps its name at the front; the name is extended exactly
      when the platform is numbered, by ", laituri " and the code. Without a
      name a numbered platform still gives "None, laituri X". */
  lemma {:induction false} StopNameSpec(ps: map<string, Option<string>>)
    ensures var name := Get(ps, "name");
      var r := GetStopName(ps);
      (name.Some? ==> (r.Some? && |name.value| <= |r.value| && r.value[..|name.value|] == name.value &&
        (r.value == name.value <==> !NumberedPlatform(ps))))
    ensures NumberedPlatform(ps) ==>
      var rest := GetStopName(ps).value[|Show(Get(ps, "name"))|..];
      rest[..10] == ", laituri " && rest[10..] == Get(ps, "platformCode").value
  {
    var r := GetStopName(ps);
    if NumberedPlatform(ps) {
      var n := Show(Get(ps, "name"));
      var plat := Get(ps, "platformCode").value;
      assert r.value == n + (", laituri " + plat);
      assert r.value[|n|..] == ", laituri " + plat;
    }
  }

  // ---------------------------------------------------------- longname2stops

  /** The character that stands in for a protected hyphen. */
  const Smile: char := '☺'

  /** Place names whose hyphen is not a stop separator. */
  const ProtectedNames: seq<string> := [
    "Ala-Malm", "Ala-Souk", "Ala-Tikk", "Etelä-Kask", "Etelä-Viin", "Helsinki-Vant",
    "Itä-Hakk", "Kala-Matt", "Kallio-Kuni", "Koivu-Mank", "Lill-Beng", "Meri-Rast",
    "Övre-Juss", "Pohjois-Haag", "Pohjois-Viin", "S-Mark", "Stor-Kvis", "Stor-Rösi",
    "Taka-Niip", "Ukko-Pekk", "Vanha-Mank", "Vanha-Sten", "Ylä-Souk", "Yli-Finn",
    "Yli-Juss", "Pohjois-Nikinmä", "Länsi-Pasila", "Etelä-Leppäv"]

  predicate IsPrefix(p: string, s: string)
  {
    |p| <= |s| && s[..|p|] == p
  }

  /** The alternative the regular expression takes at the start of `s`: the
      first name in the list that `s` starts with. */
  function FirstMatch(s: string, pats: seq<string>): (r: Option<nat>)
    ensures r.None? <==> forall j :: 0 <= j < |pats| ==> !IsPrefix(pats[j], s)
    ensures r.Some? ==> (r.value < |pats| && IsPrefix(pats[r.value], s) &&
      forall j :: 0 <= j < r.value ==> !IsPrefix(pats[j], s))
  {
    if |pats| == 0 then None
    else if IsPrefix(pats[0], s) then Some(0)
    else
      match FirstMatch(s, pats[1..])
      case None => None
      case Some(j) =>
        assert forall i :: 1 <= i <= j ==> pats[i] == pats[1..][i - 1];
        Some(j + 1)
  }

  /** `m.group().replace('-', '☺')`. */
  function Mark(p: string): string
  {
    seq(|p|, i requires 0 <= i < |p| => if p[i] == '-' then Smile else p[i])
  }

  /** `s.replace('☺', '-')`. */
  function Restore(s: string): string
  {
    seq(|s|, i requires 0 <= i < |s| => if s[i] == Smile then '-' else s[i])
  }

  /** `re.sub(pat, subf, s)`: scanning left to right, a protected name found
      at the scan position has its hyphens marked and is skipped; otherwise
      one character is copied. An empty match copies the next character. */
  function Protect(s: string, pats: seq<string>): (r: string)
    ensures |r| == |s|
    decreases |s|
  {
    if |s| == 0 then ""
    else
      var m := FirstMatch(s, pats);
      if m.Some? && |pats[m.value]| > 0 then Mark(pats[m.value]) + Protect(s[|pats[m.value]|..], pats)
      else [s[0]] + Protect(s[1..], pats)
  }

  /** The stops of a long name for a given list of protected names. */
  function LongNameStops(longname: string, pats: seq<string>): (r: seq<string>)
    ensures |r| == CountChar(Protect(longname, pats), '-') + 1
  {
    var pieces := Split(Protect(longname, pats), '-');
    SplitCount(Protect(longname, pats), '-');
    seq(|pieces|, k requires 0 <= k < |pieces| => Strip(Restore(pieces[k])))
  }

  /** hsl.longname2stops. */
  function LongName2Stops(longname: string): seq<string>
  {
    LongNameStops(longname, ProtectedNames)
  }

  lemma {:induction false} RestoreConcat(a: string, b: string)
    ensures Restore(a + b) == Restore(a) + Restore(b)
  {
  }

  /** Marking leaves no hyphen and is undone by restoring. */
  lemma {:induction false} MarkSpec(p: string)
    ensures CountChar(Mark(p), '-') == 0
    ensures Restore(Mark(p)) == Restore(p)
  {
    CountCharNone(Mark(p), '-');
  }

  /** Protecting only turns hyphens into marks: restoring gives back the
      name (with its own marks restored too), and no hyphen is added. */
  lemma {:induction false} ProtectSpec(s: string, pats: seq<string>)
    ensures Restore(Protect(s, pats)) == Restore(s)
    ensures CountChar(Protect(s, pats), '-') <= CountChar(s, '-')
    decreases |s|
  {
    if |s| > 0 {
      var m := FirstMatch(s, pats);
      if m.Some? && |pats[m.value]| > 0 {
        var p := pats[m.value];
        var rest := s[|p|..];
        ProtectSpec(rest, pats);
        PrefixThenRest(p, s);
        ProtectedPiece(p, Mark(p), rest, Protect(rest, pats));
      } else {
        ProtectSpec(s[1..], pats);
        assert s == [s[0]] + s[1..];
        ProtectedPiece([s[0]], [s[0]], s[1..], Protect(s[1..], pats));
      }
    }
  }

  /** A string is its prefix followed by the rest. */
  lemma {:induction false} PrefixThenRest(p: string, s: string)
    requires IsPrefix(p, s)
    ensures s == p + s[|p|..]
  {
  }

  /** One step of the scan: a piece whose marks restore to the original
      piece, followed by a protected rest, restores to the piece followed by
      the rest. */
  lemma {:induction false} ProtectedPiece(piece: string, out: string, rest: string, protectedRest: string)
    requires out == piece || out == Mark(piece)
    requires Restore(protectedRest) == Restore(rest) && CountChar(protectedRest, '-') <= CountChar(rest, '-')
    ensures Restore(out + protectedRest) == Restore(piece + rest)
    ensures CountChar(out + protectedRest, '-') <= CountChar(piece + rest, '-')
  {
    MarkSpec(piece);
    RestoreConcat(out, protectedRest);
    RestoreConcat(piece, rest);
    CountCharConcat(out, protectedRest, '-');
    CountCharConcat(piece, rest, '-');
  }

  lemma {:induction false} RestoreJoin(parts: seq<string>)
    ensures Restore(Join(parts, "-")) ==
      Join(seq(|parts|, k requires 0 <= k < |parts| => Restore(parts[k])), "-")
  {
    var restored := seq(|parts|, k requires 0 <= k < |parts| => Restore(parts[k]));
    if |parts| > 1 {
      RestoreJoin(parts[1..]);
      assert restored[1..] == seq(|parts[1..]|, k requires 0 <= k < |parts[1..]| => Restore(parts[1..][k]));
      RestoreConcat(parts[0] + "-", Join(parts[1..], "-"));
      RestoreConcat(parts[0], "-");
    }
  }

  /** Nothing but whitespace is lost: before stripping, the stops joined
      with "-" give back the long name (one without a mark character). */
  lemma {:induction false} LongNamePieces(longname: string, pats: seq<string>)
    requires Smile !in longname
    ensures var pieces := Split(Protect(longname, pats), '-');
      Join(seq(|pieces|, k requires 0 <= k < |pieces| => Restore(pieces[k])), "-") == longname
  {
    var protected := Protect(longname, pats);
    JoinSplit(protected, '-');
    RestoreJoin(Split(protected, '-'));
    ProtectSpec(longname, pats);
  }

  /** A long name without hyphens is a single stop: the name stripped. */
  lemma {:induction false} NoHyphenOneStop(longname: string, pats: seq<string>)
    requires CountChar(longname, '-') == 0 && Smile !in longname
    ensures LongNameStops(longname, pats) == [Strip(longname)]
  {
    var protected := Protect(longname, pats);
    assert Restore(protected) == longname && CountChar(protected, '-') == 0 by {
      ProtectSpec(longname, pats);
    }
    var pieces := Split(protected, '-');
    assert pieces == [protected] by {
      SplitCount(protected, '-');
      SplitFreePrefix(protected, "", '-');
      assert protected + "" == protected;
    }
  }

  /** A protected name at the start of the scan is not split: the first stop
      begins with it whole. */
  lemma {:induction false} ProtectedNameKept(longname: string, pats: seq<string>, p: string)
    requires FirstMatch(longname, pats).Some? && p == pats[FirstMatch(longname, pats).value]
    requires |p| > 0 && Smile !in p && !IsSpace(p[0]) && !IsSpace(p[|p| - 1])
    ensures |p| <= |LongNameStops(longname, pats)[0]| && LongNameStops(longname, pats)[0][..|p|] == p
  {
    var rest := Protect(longname[|p|..], pats);
    assert Protect(longname, pats) == Mark(p) + rest;
    MarkSpec(p);
    SplitFreePrefix(Mark(p), rest, '-');
    var first := Split(rest, '-')[0];
    var piece := Restore(Mark(p) + first);
    RestoreConcat(Mark(p), first);
    assert Restore(p) == p;
    assert piece[..|p|] == p;
    assert StripLeft(piece) == piece;
    var stop := Strip(piece);
    assert stop == StripRight(piece);
    assert |stop| >= |p|;
    assert stop[..|p|] == piece[..|p|];
  }
}
