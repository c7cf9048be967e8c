/**
 * The pure core of the audit-log data migration from the V1 schema: the
 * parser of V1 `calculation_record` strings (`"<model>_<id>"`), the lookup
 * map from calculation ids to the object they point at, and the choice
 * between the column names found in old databases.
 */
module AuditLogMigration {
  import opened Common

  /** The record strings that never name an object, compared after lower-casing. */
  const Reserved: set<string> := {"legacy", "init_upload", "test_id"}

  /** The superscript digits: Python's `isdigit` accepts them, `int` does not. */
  const Superscripts: set<char> := {'¹', '²', '³'}

  function LowerChar(c: char): char {
    if 'A' <= c <= 'Z' then (c as int + 32) as char else c
  }

  /**
   * ASCII lower-casing: no upper-case letter is left, each upper-case
   * letter becomes its lower-case partner and every other character is
   * kept.
   */
  function Lower(s: string): (r: string)
    ensures |r| == |s|
    ensures forall i :: 0 <= i < |r| ==> !('A' <= r[i] <= 'Z')
    ensures forall i :: 0 <= i < |s| && 'A' <= s[i] <= 'Z' ==> r[i] as int == s[i] as int + 32
    ensures forall i :: 0 <= i < |s| && !('A' <= s[i] <= 'Z') ==> r[i] == s[i]
  {
    seq(|s|, i requires 0 <= i < |s| => LowerChar(s[i]))
  }

  /** Lower-casing twice is lower-casing once. */
  lemma LowerIdempotent(s: string)
    ensures Lower(Lower(s)) == Lower(s)
  {
    var r := Lower(s);
    assert forall i :: 0 <= i < |r| ==> Lower(r)[i] == r[i];
  }

  predicate IsDecimal(c: char) {
    '0' <= c <= '9'
  }

  /** A non-empty run of decimal digits: what `int` accepts here. */
  predicate AllDecimal(s: string) {
    |s| > 0 && forall i :: 0 <= i < |s| ==> IsDecimal(s[i])
  }

  /** Python's `str.isdigit` on the digits modelled: decimal digits and superscripts, at least one. */
  predicate PyIsDigit(s: string) {
    |s| > 0 && forall i :: 0 <= i < |s| ==> IsDecimal(s[i]) || s[i] in Superscripts
  }

  /** The value of a run of decimal digits, leading zeros allowed. */
  function DigitsValue(s: string): nat
    requires forall i :: 0 <= i < |s| ==> IsDecimal(s[i])
  {
    if s == [] then 0
    else
      assert IsDecimal(s[|s| - 1]);
      DigitsValue(s[..|s| - 1]) * 10 + (s[|s| - 1] as int - '0' as int)
  }

  /** The decimal text of `n`, without leading zeros. */
  function NatText(n: nat): (r: string)
    ensures AllDecimal(r)
    ensures DigitsValue(r) == n
  {
    var d := ('0' as int + n % 10) as char;
    if n < 10 then
      [d]
    else
      var r := NatText(n / 10) + [d];
      assert r[..|r| - 1] == NatText(n / 10);
      r
  }

  /** The position of the last occurrence of `c` in `s`. */
  function LastIndexOf(s: string, c: char): (r: Option<nat>)
    ensures r.None? <==> c !in s
    ensures r.Some? ==> r.value < |s| && s[r.value] == c && c !in s[r.value + 1..]
  {
    if s == [] then None
    else if s[|s| - 1] == c then Some(|s| - 1)
    else
      var init := s[..|s| - 1];
      assert s == init + [s[|s| - 1]];
      var r := LastIndexOf(init, c);
      if r.Some? then
        assert s[r.value + 1..] == init[r.value + 1..] + [s[|s| - 1]];
        r
      else r
  }

  /** The outcome of parsing one record string. */
  datatype ParseOutcome =
    | Parsed(model: string, objectId: nat)   // `(model_name_lower, object_id)`
    | NoLink                                 // `(None, None)`
    | Crash                                  // `int` raised `ValueError`

  /**
   * `parse_calculation_record` as written: the suffix after the last
   * underscore is tested with `isdigit` and then converted with `int`, so a
   * suffix holding a superscript digit passes the test and then raises.
   */
  function ParseAsWritten(rec: Option<string>): (r: ParseOutcome)
    ensures rec.None? || rec == Some([]) ==> r == NoLink
    ensures rec.Some? && Lower(rec.value) in Reserved ==> r == NoLink
    ensures r.Parsed? ==> exists i :: && 0 <= i < |rec.value| && rec.value[i] == '_'
                                      && '_' !in rec.value[i + 1..] && AllDecimal(rec.value[i + 1..])
                                      && r.model == Lower(rec.value[..i]) && r.objectId == DigitsValue(rec.value[i + 1..])
    ensures r == Crash ==> exists i :: && 0 <= i < |rec.value| && rec.value[i] == '_' && '_' !in rec.value[i + 1..]
                                       && PyIsDigit(rec.value[i + 1..]) && !AllDecimal(rec.value[i + 1..])
  {
    if rec.None? || rec.value == [] || Lower(rec.value) in Reserved then NoLink
    else
      var s := rec.value;
      match LastIndexOf(s, '_')
      case None => NoLink
      case Some(i) =>
        var suffix := s[i + 1..];
        if !PyIsDigit(suffix) then NoLink
        else if !AllDecimal(suffix) then Crash
        else Parsed(Lower(s[..i]), DigitsValue(suffix))
  }

  /** The superscript record `"investor_²"` passes the digit test and then crashes the migration. */
  lemma SuperscriptCrashes()
    ensures ParseAsWritten(Some("investor_²")) == Crash
  {
    var s := "investor_²";
    assert Lower(s)[0] == 'i';
    assert LastIndexOf(s, '_') == Some(8);
    assert s[9..] == "²";
  }

  /**
   * `parse_calculation_record` as intended: a record names an object only
   * when the text after its last underscore is a run of decimal digits; any
   * other record, and an empty, missing or reserved one, names nothing.
   */
  function ParseCalculationRecord(rec: Option<string>): (r: ParseOutcome)
    ensures r != Crash
    ensures rec.None? || rec == Some([]) ==> r == NoLink
    ensures rec.Some? && Lower(rec.value) in Reserved ==> r == NoLink
    ensures r.Parsed? ==> exists i :: && 0 <= i < |rec.value| && rec.value[i] == '_'
                                      && '_' !in rec.value[i + 1..] && AllDecimal(rec.value[i + 1..])
                                      && r.model == Lower(rec.value[..i]) && r.objectId == DigitsValue(rec.value[i + 1..])
  {
    if rec.None? || rec.value == [] || Lower(rec.value) in Reserved then NoLink
    else
      var s := rec.value;
      match LastIndexOf(s, '_')
      case None => NoLink
      case Some(i) =>
        var suffix := s[i + 1..];
        if AllDecimal(suffix) then Parsed(Lower(s[..i]), DigitsValue(suffix)) else NoLink
  }

  /** The intended parser differs from the written one only where the written one crashes, and there it names nothing. */
  lemma CorrectedAgrees(rec: Option<string>)
    ensures ParseAsWritten(rec) != Crash ==> ParseCalculationRecord(rec) == ParseAsWritten(rec)
    ensures ParseAsWritten(rec) == Crash ==> ParseCalculationRecord(rec) == NoLink
  {
  }

  /** A V1 record string: a model name, an underscore and the object id. */
  function RecordText(model: string, id: nat): string {
    model + "_" + NatText(id)
  }

  /**
   * Round trip: the record written for any model name (underscores
   * included) and any id parses back to the lower-cased name and the id.
   */
  lemma ParseRecordText(model: string, id: nat)
    ensures ParseCalculationRecord(Some(RecordText(model, id))) == Parsed(Lower(model), id)
  {
    var s := RecordText(model, id);
    RecordTextSplit(model, id);
    EndsInDigitNotReserved(s);
  }

  /** The last underscore of a record text is the one after the model name. */
  lemma RecordTextSplit(model: string, id: nat)
    ensures LastIndexOf(RecordText(model, id), '_') == Some(|model|)
    ensures RecordText(model, id)[..|model|] == model
    ensures RecordText(model, id)[|model| + 1..] == NatText(id)
  {
    var s, digits := RecordText(model, id), NatText(id);
    assert s[|model|] == '_';
    assert s[|model| + 1..] == digits;
    assert forall j :: 0 <= j < |digits| ==> digits[j] != '_';
  }

  /** A string ending in a digit is none of the reserved records. */
  lemma EndsInDigitNotReserved(s: string)
    requires s != [] && IsDecimal(s[|s| - 1])
    ensures Lower(s) !in Reserved
  {
    assert IsDecimal(Lower(s)[|s| - 1]);
    assert !IsDecimal("legacy"[5]) && !IsDecimal("init_upload"[10]) && !IsDecimal("test_id"[6]);
  }

  /**
   * The parser reads records without regard to case: two records that
   * lower-case to the same text have the same outcome, reserved or not.
   */
  lemma ParseIgnoresCase(s: string, t: string)
    requires Lower(s) == Lower(t)
    ensures ParseCalculationRecord(Some(s)) == ParseCalculationRecord(Some(t))
  {
    assert |s| == |Lower(s)| == |t|;
    if s != [] && Lower(s) !in Reserved {
      forall k | 0 <= k < |s| ensures LowerChar(s[k]) == LowerChar(t[k]) {
        assert Lower(s)[k] == Lower(t)[k];
      }
      SameLoweredChars(s, t);
      LastUnderscoreAlike(s, t);
      var l := LastIndexOf(s, '_');
      if l.Some? {
        var i := l.value;
        SuffixAlike(s, t, i);
        LowerPrefix(s, i);
        LowerPrefix(t, i);
        ParseSplitAt(s, i);
        ParseSplitAt(t, i);
      }
    }
  }

  /** The parse of a non-reserved record whose last underscore is at `i`. */
  lemma ParseSplitAt(s: string, i: nat)
    requires s != [] && Lower(s) !in Reserved && LastIndexOf(s, '_') == Some(i)
    ensures ParseCalculationRecord(Some(s)) ==
      if AllDecimal(s[i + 1..]) then Parsed(Lower(s[..i]), DigitsValue(s[i + 1..])) else NoLink
  {
  }

  /** Characters that lower-case alike agree on being an underscore, and a digit only matches itself. */
  lemma SameLoweredChars(s: string, t: string)
    requires |s| == |t| && forall k :: 0 <= k < |s| ==> LowerChar(s[k]) == LowerChar(t[k])
    ensures forall k :: 0 <= k < |s| ==> (s[k] == '_' <==> t[k] == '_')
    ensures forall k :: 0 <= k < |s| && (IsDecimal(s[k]) || IsDecimal(t[k])) ==> s[k] == t[k]
  {
  }

  /** Two texts with underscores at the same places split at the same last underscore. */
  lemma LastUnderscoreAlike(s: string, t: string)
    requires |s| == |t| && forall k :: 0 <= k < |s| ==> (s[k] == '_' <==> t[k] == '_')
    ensures LastIndexOf(s, '_') == LastIndexOf(t, '_')
  {
  }

  /** Suffixes whose digits match: both are digit runs, equal, or neither is. */
  lemma SuffixAlike(s: string, t: string, i: nat)
    requires |s| == |t| && i < |s|
    requires forall k :: 0 <= k < |s| && (IsDecimal(s[k]) || IsDecimal(t[k])) ==> s[k] == t[k]
    ensures AllDecimal(s[i + 1..]) <==> AllDecimal(t[i + 1..])
    ensures AllDecimal(s[i + 1..]) ==> s[i + 1..] == t[i + 1..]
  {
    var a, b := s[i + 1..], t[i + 1..];
    assert forall k :: 0 <= k < |a| ==> a[k] == s[i + 1 + k] && b[k] == t[i + 1 + k];
  }

  /** Lower-casing commutes with taking a prefix. */
  lemma LowerPrefix(s: string, i: nat)
    requires i <= |s|
    ensures Lower(s[..i]) == Lower(s)[..i]
  {
  }

  /** Where a calculation id points: a content type and an object id. */
  datatype CalcLink = CalcLink(contentType: nat, objectId: nat)

  /** One row of the V1 calculation-id table. */
  datatype CalcRow = CalcRow(calcId: string, record: Option<string>)

  /** The link a row contributes: its record names a non-empty model that is a known content type. */
  function RowLink(row: CalcRow, known: map<string, nat>): Option<CalcLink> {
    var p := ParseCalculationRecord(row.record);
    if p.Parsed? && p.model != [] && p.model in known then Some(CalcLink(known[p.model], p.objectId)) else None
  }

  /** Among the first `n` rows, row `i` is the last one of calculation id `c` that contributes a link. */
  ghost predicate LastResolving(rows: seq<CalcRow>, known: map<string, nat>, n: int, c: string, i: int) {
    && 0 <= i < n <= |rows| && rows[i].calcId == c && RowLink(rows[i], known).Some?
    && forall j :: i < j < n && rows[j].calcId == c ==> RowLink(rows[j], known).None?
  }

  /** The map the first `n` rows build: each contributing row overwrites the entry of its calculation id. */
  function CalcIdMap(rows: seq<CalcRow>, known: map<string, nat>, n: nat): map<string, CalcLink>
    requires n <= |rows|
  {
    if n == 0 then map[]
    else
      var m := CalcIdMap(rows, known, n - 1);
      var link := RowLink(rows[n - 1], known);
      if link.Some? then m[rows[n - 1].calcId := link.value] else m
  }

  /** An id is in the map exactly when one of the rows contributes a link for it. */
  lemma {:induction false} CalcIdMapKeys(rows: seq<CalcRow>, known: map<string, nat>, n: nat, c: string)
    requires n <= |rows|
    ensures c in CalcIdMap(rows, known, n) <==> exists i :: 0 <= i < n && rows[i].calcId == c && RowLink(rows[i], known).Some?
  {
    if n > 0 {
      CalcIdMapKeys(rows, known, n - 1, c);
      if rows[n - 1].calcId == c && RowLink(rows[n - 1], known).Some? {
        assert c in CalcIdMap(rows, known, n);
      } else {
        assert c in CalcIdMap(rows, known, n) <==> c in CalcIdMap(rows, known, n - 1);
        assert forall i :: 0 <= i < n && rows[i].calcId == c && RowLink(rows[i], known).Some? ==> i < n - 1;
      }
    }
  }

  /** The entry of an id is the link of its last contributing row. */
  lemma {:induction false} CalcIdMapValues(rows: seq<CalcRow>, known: map<string, nat>, n: nat, c: string)
    requires n <= |rows| && c in CalcIdMap(rows, known, n)
    ensures exists i :: LastResolving(rows, known, n, c, i) && RowLink(rows[i], known) == Some(CalcIdMap(rows, known, n)[c])
  {
    if RowLink(rows[n - 1], known).Some? && rows[n - 1].calcId == c {
      assert LastResolving(rows, known, n, c, n - 1);
    } else {
      CalcIdMapValues(rows, known, n - 1, c);
      var i :| LastResolving(rows, known, n - 1, c, i) && RowLink(rows[i], known) == Some(CalcIdMap(rows, known, n - 1)[c]);
      assert LastResolving(rows, known, n, c, i);
    }
  }

  /**
   * The loop building `calc_id_map`: a calculation id is mapped exactly when
   * one of its rows contributes a link, and to the link of the last such row.
   */
  method BuildCalcIdMap(rows: seq<CalcRow>, known: map<string, nat>) returns (links: map<string, CalcLink>)
    ensures forall c :: c in links <==> exists i :: 0 <= i < |rows| && rows[i].calcId == c && RowLink(rows[i], known).Some?
    ensures forall c :: c in links ==>
      exists i :: && 0 <= i < |rows| && rows[i].calcId == c && RowLink(rows[i], known) == Some(links[c])
                  && forall j :: i < j < |rows| && rows[j].calcId == c ==> RowLink(rows[j], known).None?
  {
    links := map[];
    var n := 0;
    while n < |rows|
      invariant 0 <= n <= |rows|
      invariant links == CalcIdMap(rows, known, n)
    {
      var link := RowLink(rows[n], known);
      if link.Some? {
        links := links[rows[n].calcId := link.value];
      }
      n := n + 1;
    }
    forall c ensures c in links <==> exists i :: 0 <= i < |rows| && rows[i].calcId == c && RowLink(rows[i], known).Some? {
      CalcIdMapKeys(rows, known, |rows|, c);
    }
    forall c | c in links
      ensures exists i :: && 0 <= i < |rows| && rows[i].calcId == c && RowLink(rows[i], known) == Some(links[c])
                          && forall j :: i < j < |rows| && rows[j].calcId == c ==> RowLink(rows[j], known).None?
    {
      CalcIdMapValues(rows, known, |rows|, c);
    }
  }

  /**
   * The column names read from the V1 calculation log: `log_message` when
   * the table has it, otherwise `message`; `calculationId` when the table
   * has it, otherwise `calculation_id`.
   */
  function ChooseColumns(columns: seq<string>): (r: (string, string))
    ensures r.0 in {"log_message", "message"} && r.1 in {"calculationId", "calculation_id"}
    ensures r.0 == "log_message" <==> "log_message" in columns
    ensures r.1 == "calculationId" <==> "calculationId" in columns
  {
    (if "log_message" in columns then "log_message" else "message",
     if "calculationId" in columns then "calculationId" else "calculation_id")
  }
}
