/** How each stage names its output files, and how the summary recovers the prefix length
    and encoding from a report's name (`parse_fname`). */
module FileNames {
  import opened Basics
  import opened Text
  import opened Decimal

  /** 01_build_aequitas_inputs.py line 132: `prefix{k}_{tag}.csv`. */
  function PrefixTableName(k: nat, tag: string): string
  {
    "prefix" + NatToString(k) + "_" + tag + ".csv"
  }

  /** 02A_make_aequitas_csvs.py line 41: every `.csv` in the name becomes `_aeq.csv`. */
  function AeqName(fn: string): string
  {
    ReplaceAll(fn, ".csv", "_aeq.csv")
  }

  /** 02B_run_aequitas_audit.py lines 54-55: the base name with every `.csv` removed,
      then `_disparities.csv`. */
  function DisparitiesName(path: string): string
  {
    ReplaceAll(Basename(path), ".csv", "") + ReportSuffix
  }

  // ---------------------------------------------------------------- parse_fname

  /** End of the run of ASCII digits starting at `q` (`\d+` is greedy). */
  function DigitRunEnd(s: string, q: nat): (e: nat)
    requires q <= |s|
    ensures q <= e <= |s|
    ensures AllDigits(s[q..e])
    ensures e < |s| ==> !IsDigit(s[e])
    decreases |s| - q
  {
    if q < |s| && IsDigit(s[q]) then
      var e := DigitRunEnd(s, q + 1);
      assert s[q..e] == [s[q]] + s[q + 1..e];
      e
    else q
  }

  /** `s[p..]` starts with `word`, ignoring ASCII case. */
  predicate HasWordAt(s: string, p: nat, word: string)
  {
    p + |word| <= |s| && forall i :: 0 <= i < |word| ==> LowerChar(s[p + i]) == word[i]
  }

  const ReportSuffix := "_disparities.csv"

  /** The end of every report name: the audit input's `_aeq`, then the report suffix. */
  const AeqReportTail := "_aeq" + ReportSuffix

  /** `.*?_disparities\.csv` up to the end of `t`: no newline before the suffix. */
  predicate EndsInReport(t: string)
  {
    |t| >= |ReportSuffix| && HasWordAt(t, |t| - |ReportSuffix|, ReportSuffix)
    && '\n' !in t[..|t| - |ReportSuffix|]
  }

  /** The tail after the encoding matches `.*?_disparities\.csv$` (`$` also matches just
      before a final newline). */
  predicate TailMatches(t: string)
  {
    EndsInReport(t) || (|t| > 0 && t[|t| - 1] == '\n' && EndsInReport(t[..|t| - 1]))
  }

  /** The encoding word at `w`, lowercased (group 2 of the pattern). */
  function EncodingAt(s: string, w: nat): (enc: Option<string>)
    ensures enc.Some? ==> enc.value == "simple" || enc.value == "complex"
    ensures enc.Some? ==> HasWordAt(s, w, enc.value)
  {
    if HasWordAt(s, w, "simple") then Some("simple")
    else if HasWordAt(s, w, "complex") then Some("complex")
    else None
  }

  /** The pattern `prefix(\d+)_(simple|complex).*?_disparities\.csv$`, case-insensitive,
      tried at position `p`: the number and the lowercased encoding. */
  function MatchAt(s: string, p: nat): (m: Option<(nat, string)>)
    requires p <= |s|
    ensures m.Some? ==> m.value.1 == "simple" || m.value.1 == "complex"
  {
    if !HasWordAt(s, p, "prefix") then None
    else
      var q := p + 6;
      var e := DigitRunEnd(s, q);
      if e == q || e == |s| || s[e] != '_' then None
      else
        var enc := EncodingAt(s, e + 1);
        if enc.None? then None
        else if TailMatches(s[e + 1 + |enc.value|..]) then Some((DigitsValue(s[q..e]), enc.value))
        else None
  }

  /** The first `Some` among `f(p)`, `f(p + 1)`, ..., `f(n)`. */
  function FirstSome<T>(f: nat -> Option<T>, p: nat, n: nat): (m: Option<T>)
    requires p <= n
    ensures m.None? <==> forall q :: p <= q <= n ==> f(q).None?
    ensures m.Some? ==> exists q :: p <= q <= n && f(q) == m && forall r :: p <= r < q ==> f(r).None?
    decreases n - p
  {
    if f(p).Some? then f(p)
    else if p == n then None
    else
      var rest := FirstSome(f, p + 1, n);
      assert forall q :: p <= q <= n ==> (q == p || p + 1 <= q) && f(q) == f(q);
      rest
  }

  /** `MatchAt` made total, for `FirstSome`. */
  function Attempt(s: string, q: nat): Option<(nat, string)>
  {
    if q <= |s| then MatchAt(s, q) else None
  }

  /** 03_summarize_reports.py lines 34-41: `re.search` on the base name, so the match at the
      leftmost position where there is one; nothing when the name does not follow the
      pattern. */
  function ParseFname(path: string): (r: Option<(nat, string)>)
    ensures r.Some? ==> r.value.1 == "simple" || r.value.1 == "complex"
    ensures r.None? <==> forall q :: 0 <= q <= |Basename(path)| ==> Attempt(Basename(path), q).None?
    ensures r.Some? ==> exists q :: 0 <= q <= |Basename(path)| && Attempt(Basename(path), q) == r
                                   && forall q' :: 0 <= q' < q ==> Attempt(Basename(path), q').None?
  {
    var s := Basename(path);
    var f: nat -> Option<(nat, string)> := (q: nat) => Attempt(s, q);
    assert forall q: nat :: f(q) == Attempt(s, q);
    FirstSome(f, 0, |s|)
  }

  // ---------------------------------------------------------------- round trip

  /** The name every stage derives from `prefix{k}_{enc}`. */
  function ReportName(k: nat, enc: string): string
  {
    "prefix" + NatToString(k) + "_" + enc + AeqReportTail
  }

  lemma NoDotInStem(k: nat, enc: string)
    requires enc == "simple" || enc == "complex"
    ensures '.' !in "prefix" + NatToString(k) + "_" + enc
    ensures '.' !in "prefix" + NatToString(k) + "_" + enc + "_aeq"
    ensures '/' !in "prefix" + NatToString(k) + "_" + enc + "_aeq"
  {
    var d := NatToString(k);
    assert forall i :: 0 <= i < |d| ==> IsDigit(d[i]);
  }

  /** Adding `_aeq` before the extension of a name with no other dot. */
  lemma AeqNameOfStem(stem: string)
    requires '.' !in stem
    ensures AeqName(stem + ".csv") == stem + "_aeq.csv"
  {
    ReplaceTrailing(stem, ".csv", "_aeq.csv");
  }

  /** The report name of an audit input in the current directory with no other dot. */
  lemma DisparitiesNameOfStem(stem: string)
    requires '.' !in stem && '/' !in stem
    ensures DisparitiesName(stem + ".csv") == stem + ReportSuffix
  {
    StripExtension(stem, ".csv", ReportSuffix);
  }

  /** Dropping the only occurrence of the extension `ext` from a plain file name. */
  lemma StripExtension(stem: string, ext: string, suffix: string)
    requires |ext| > 0 && ext[0] !in stem && '/' !in stem && '/' !in ext
    ensures ReplaceAll(Basename(stem + ext), ext, "") + suffix == stem + suffix
  {
    var name := stem + ext;
    assert '/' !in name by {
      assert forall i :: |stem| <= i < |name| ==> name[i] == ext[i - |stem|];
    }
    assert Basename(name) == name;
    ReplaceTrailing(stem, ext, "");
    assert stem + "" == stem;
  }

  lemma Assoc<X>(a: seq<X>, b: seq<X>, c: seq<X>)
    ensures a + (b + c) == (a + b) + c
  {
  }

  /** The audit report of the table built for `k` and `enc` is named `ReportName(k, enc)`. */
  lemma ReportNameOfPipeline(k: nat, enc: string)
    requires enc == "simple" || enc == "complex"
    ensures DisparitiesName(AeqName(PrefixTableName(k, enc))) == ReportName(k, enc)
  {
    var stem := "prefix" + NatToString(k) + "_" + enc;
    NoDotInStem(k, enc);
    assert PrefixTableName(k, enc) == stem + ".csv";
    PipelineOfStem(stem);
    assert ReportName(k, enc) == stem + AeqReportTail;
  }

  /** The audit input and then the report derived from the table `stem.csv`. */
  lemma PipelineOfStem(stem: string)
    requires '.' !in stem && '.' !in stem + "_aeq" && '/' !in stem + "_aeq"
    ensures DisparitiesName(AeqName(stem + ".csv")) == stem + AeqReportTail
  {
    AeqNameOfStem(stem);
    var stem2 := stem + "_aeq";
    assert "_aeq" + ".csv" == "_aeq.csv";
    assert stem + "_aeq.csv" == stem2 + ".csv" by {
      Assoc(stem, "_aeq", ".csv");
    }
    DisparitiesNameOfStem(stem2);
    assert stem2 + ReportSuffix == stem + AeqReportTail by {
      Assoc(stem, "_aeq", ReportSuffix);
    }
  }

  lemma DigitRunOfNumber(s: string, q: nat, d: string)
    requires q + |d| < |s| && s[q..q + |d|] == d && AllDigits(d) && !IsDigit(s[q + |d|])
    ensures DigitRunEnd(s, q) == q + |d|
    decreases |d|
  {
    if |d| > 0 {
      assert s[q] == d[0];
      DigitRunOfNumber(s, q + 1, d[1..]);
    }
  }

  /** The tail `_aeq_disparities.csv` left after the encoding matches the pattern's tail. */
  lemma ReportTailMatches()
    ensures TailMatches(AeqReportTail)
  {
    var t := AeqReportTail;
    assert '\n' !in t[..4];
  }

  /** A lowercase word matches itself. */
  lemma WordAt(s: string, p: nat, word: string)
    requires p + |word| <= |s| && s[p..p + |word|] == word && NoUpperAscii(word)
    ensures HasWordAt(s, p, word)
  {
    forall i | 0 <= i < |word| ensures LowerChar(s[p + i]) == word[i] {
      assert s[p + i] == word[i];
    }
  }

  /** The encoding word is recognised. */
  lemma EncodingOfWord(s: string, w: nat, enc: string)
    requires enc == "simple" || enc == "complex"
    requires w + |enc| <= |s| && s[w..w + |enc|] == enc
    ensures EncodingAt(s, w) == Some(enc)
  {
    WordAt(s, w, enc);
    if enc == "complex" {
      assert s[w] == 'c';
      assert LowerChar(s[w]) != "simple"[0];
    }
  }

  lemma Middle<X>(a: seq<X>, b: seq<X>, c: seq<X>)
    ensures (a + b + c)[|a|..|a| + |b|] == b
    ensures |c| > 0 ==> (a + b + c)[|a| + |b|] == c[0]
    ensures (a + b + c)[|a| + |b|..] == c
  {
  }

  /** The pattern, tried at the first character, from the facts about each of its parts. */
  lemma MatchFromParts(s: string, d: string, enc: string)
    requires |d| > 0 && 7 + |d| + |enc| <= |s|
    requires HasWordAt(s, 0, "prefix")
    requires s[6..6 + |d|] == d && DigitRunEnd(s, 6) == 6 + |d| && s[6 + |d|] == '_'
    requires EncodingAt(s, 7 + |d|) == Some(enc)
    requires TailMatches(s[7 + |d| + |enc|..])
    ensures MatchAt(s, 0) == Some((DigitsValue(d), enc))
  {
  }

  predicate IsReportName(s: string, d: string, enc: string)
  {
    s == "prefix" + d + "_" + enc + AeqReportTail
  }

  lemma ReportPrefixWord(s: string, d: string, enc: string)
    requires IsReportName(s, d, enc)
    ensures HasWordAt(s, 0, "prefix")
  {
    Middle([], "prefix", d + "_" + enc + AeqReportTail);
    assert s == [] + "prefix" + (d + "_" + enc + AeqReportTail);
    WordAt(s, 0, "prefix");
  }

  lemma ReportDigits(s: string, d: string, enc: string)
    requires IsReportName(s, d, enc) && AllDigits(d)
    ensures s[6..6 + |d|] == d && DigitRunEnd(s, 6) == 6 + |d| && s[6 + |d|] == '_'
  {
    var rest := "_" + enc + AeqReportTail;
    assert s == "prefix" + d + rest;
    Middle("prefix", d, rest);
    DigitRunOfNumber(s, 6, d);
  }

  lemma ReportEncoding(s: string, d: string, enc: string)
    requires IsReportName(s, d, enc)
    requires enc == "simple" || enc == "complex"
    ensures EncodingAt(s, 7 + |d|) == Some(enc)
  {
    var tail := AeqReportTail;
    assert s == ("prefix" + d + "_") + enc + tail;
    Middle("prefix" + d + "_", enc, tail);
    EncodingOfWord(s, 7 + |d|, enc);
  }

  lemma ReportTail(s: string, d: string, enc: string)
    requires IsReportName(s, d, enc)
    ensures TailMatches(s[7 + |d| + |enc|..])
  {
    var tail := AeqReportTail;
    assert s == ("prefix" + d + "_" + enc) + [] + tail;
    Middle("prefix" + d + "_" + enc, [], tail);
    ReportTailMatches();
  }

  /** The pattern matches a report name at its first character. */
  lemma MatchReportName(s: string, d: string, enc: string)
    requires enc == "simple" || enc == "complex"
    requires |d| > 0 && AllDigits(d)
    requires IsReportName(s, d, enc)
    ensures MatchAt(s, 0) == Some((DigitsValue(d), enc))
  {
    ReportPrefixWord(s, d, enc);
    ReportDigits(s, d, enc);
    ReportEncoding(s, d, enc);
    ReportTail(s, d, enc);
    MatchFromParts(s, d, enc);
  }

  /** `parse_fname` recovers the prefix length and encoding from the report name. */
  lemma ParseReportName(k: nat, enc: string)
    requires enc == "simple" || enc == "complex"
    ensures ParseFname(ReportName(k, enc)) == Some((k, enc))
  {
    var s := ReportName(k, enc);
    var d := NatToString(k);
    assert s == "prefix" + d + "_" + enc + AeqReportTail;
    assert '/' !in s by {
      assert forall i :: 0 <= i < |d| ==> IsDigit(d[i]);
    }
    assert Basename(s) == s;
    NatToStringRoundTrip(k);
    MatchReportName(s, d, enc);
    assert Attempt(s, 0) == Some((k, enc));
  }

  /** End to end: the summary reads back the `k` and encoding the table was built for. */
  lemma FileNameRoundTrip(k: nat, enc: string)
    requires enc == "simple" || enc == "complex"
    ensures ParseFname(DisparitiesName(AeqName(PrefixTableName(k, enc)))) == Some((k, enc))
  {
    ReportNameOfPipeline(k, enc);
    ParseReportName(k, enc);
  }

  /** Distinct configurations get distinct report names. */
  lemma ReportNamesDistinct(k1: nat, enc1: string, k2: nat, enc2: string)
    requires enc1 == "simple" || enc1 == "complex"
    requires enc2 == "simple" || enc2 == "complex"
    requires ReportName(k1, enc1) == ReportName(k2, enc2)
    ensures k1 == k2 && enc1 == enc2
  {
    ParseReportName(k1, enc1);
    ParseReportName(k2, enc2);
  }

  /** Names outside the pattern are not attributed to any configuration. */
  lemma ParseRequiresReportSuffix(path: string)
    requires forall q :: 0 <= q <= |Basename(path)| ==> !TailMatches(Basename(path)[q..])
    ensures ParseFname(path) == None
  {
    var s := Basename(path);
    forall p | 0 <= p <= |s| ensures Attempt(s, p).None? {
      NoMatchWithoutTail(s, p);
    }
  }

  /** Without the report suffix there is no match at any position. */
  lemma NoMatchWithoutTail(s: string, p: nat)
    requires p <= |s|
    requires forall q :: 0 <= q <= |s| ==> !TailMatches(s[q..])
    ensures MatchAt(s, p).None?
  {
    if HasWordAt(s, p, "prefix") {
      var e := DigitRunEnd(s, p + 6);
      if e != p + 6 && e < |s| && s[e] == '_' {
        var enc := EncodingAt(s, e + 1);
        if enc.Some? {
          var t := e + 1 + |enc.value|;
          assert t <= |s| && !TailMatches(s[t..]);
        }
      }
    }
  }

  // ---------------------------------------------------------------- the fixed file lists

  /** The configurations of 01_build_aequitas_inputs.py lines 135-137, in build order. */
  const Configurations: seq<(nat, string)> :=
    [(3, "simple"), (3, "complex"), (5, "simple"), (5, "complex"), (10, "simple"), (10, "complex")]

  /** `FILES` of 02A_make_aequitas_csvs.py lines 8-12. */
  const TableFiles: seq<string> := [
    "prefix3_simple.csv", "prefix3_complex.csv",
    "prefix5_simple.csv", "prefix5_complex.csv",
    "prefix10_simple.csv", "prefix10_complex.csv"]

  /** `FILES` of 02B_run_aequitas_audit.py lines 12-16. */
  const AuditFiles: seq<string> := [
    "prefix3_simple_aeq.csv", "prefix3_complex_aeq.csv",
    "prefix5_simple_aeq.csv", "prefix5_complex_aeq.csv",
    "prefix10_simple_aeq.csv", "prefix10_complex_aeq.csv"]

  lemma SmallNumerals()
    ensures NatToString(3) == "3" && NatToString(5) == "5" && NatToString(10) == "10"
  {
    assert NatToString(1) == "1";
  }

  /** The table files 02A reads are those 01 writes, in build order. */
  lemma TableFileNamed(i: nat)
    requires i < 6
    ensures TableFiles[i] == PrefixTableName(Configurations[i].0, Configurations[i].1)
  {
    SmallNumerals();
    if i == 0 { assert TableFiles[i] == PrefixTableName(3, "simple"); }
    else if i == 1 { assert TableFiles[i] == PrefixTableName(3, "complex"); }
    else if i == 2 { assert TableFiles[i] == PrefixTableName(5, "simple"); }
    else if i == 3 { assert TableFiles[i] == PrefixTableName(5, "complex"); }
    else if i == 4 { assert TableFiles[i] == PrefixTableName(10, "simple"); }
    else { assert TableFiles[i] == PrefixTableName(10, "complex"); }
  }

  /** The audit input 02A writes for a prefix table. */
  lemma AeqOfTable(k: nat, enc: string)
    requires enc == "simple" || enc == "complex"
    ensures AeqName(PrefixTableName(k, enc)) == PrefixTableName(k, enc + "_aeq")
  {
    var stem := "prefix" + NatToString(k) + "_" + enc;
    assert PrefixTableName(k, enc) == stem + ".csv";
    NoDotInStem(k, enc);
    AeqNameOfStem(stem);
    assert PrefixTableName(k, enc + "_aeq") == stem + "_aeq.csv";
  }

  lemma AuditFileSpelled(i: nat)
    requires i < 6
    ensures AuditFiles[i] == PrefixTableName(Configurations[i].0, Configurations[i].1 + "_aeq")
  {
    if i < 3 {
      AuditFileSpelledLow(i);
    } else {
      AuditFileSpelledHigh(i);
    }
  }

  lemma AuditFileSpelledLow(i: nat)
    requires i < 3
    ensures AuditFiles[i] == PrefixTableName(Configurations[i].0, Configurations[i].1 + "_aeq")
  {
    SmallNumerals();
    if i == 0 { assert AuditFiles[i] == PrefixTableName(3, "simple" + "_aeq"); }
    else if i == 1 { assert AuditFiles[i] == PrefixTableName(3, "complex" + "_aeq"); }
    else { assert AuditFiles[i] == PrefixTableName(5, "simple" + "_aeq"); }
  }

  lemma AuditFileSpelledHigh(i: nat)
    requires 3 <= i < 6
    ensures AuditFiles[i] == PrefixTableName(Configurations[i].0, Configurations[i].1 + "_aeq")
  {
    SmallNumerals();
    if i == 3 { assert AuditFiles[i] == PrefixTableName(5, "complex" + "_aeq"); }
    else if i == 4 { assert AuditFiles[i] == PrefixTableName(10, "simple" + "_aeq"); }
    else { assert AuditFiles[i] == PrefixTableName(10, "complex" + "_aeq"); }
  }

  /** The audit inputs 02B reads are those 02A writes. */
  lemma AuditFileNamed(i: nat)
    requires i < 6
    ensures AuditFiles[i] == AeqName(TableFiles[i])
  {
    TableFileNamed(i);
    AeqOfTable(Configurations[i].0, Configurations[i].1);
    AuditFileSpelled(i);
  }

  /** Each stage's fixed file list names exactly what the previous stage wrote, and every
      report name parses back to its configuration. */
  lemma FileListsAgree(i: nat)
    requires i < 6
    ensures TableFiles[i] == PrefixTableName(Configurations[i].0, Configurations[i].1)
    ensures AuditFiles[i] == AeqName(TableFiles[i])
    ensures ParseFname(DisparitiesName(AuditFiles[i])) == Some(Configurations[i])
  {
    TableFileNamed(i);
    AuditFileNamed(i);
    FileNameRoundTrip(Configurations[i].0, Configurations[i].1);
  }
}
