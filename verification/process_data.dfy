/**
 * src/vexy_markliff/vexy_markliff.py: `process_data`, which strips every
 * item, drops the empty ones, and summarises what is left (how many, how
 * many distinct, how often each occurs), echoing the optional `Config`.
 * The items are taken as the strings `str(item)` gives.
 */
module ProcessData {
  import opened Wrappers
  import opened TextUtils
  import opened Counting
  import opened Sequences

  const EmptyInputMessage: string := "input data must contain at least one non-empty item"

  /** `Config.value`: a string or an integer (float values are not modelled). */
  datatype ConfigValue = Text(text: string) | Number(number: int)

  /** The `Config` dataclass. */
  datatype Config = Config(name: string, value: ConfigValue, options: Option<map<string, string>>)

  /** The `"config"` entry of the result. */
  datatype ConfigEcho = ConfigEcho(name: string, value: ConfigValue, options: map<string, string>)

  /** The result dictionary. */
  datatype Report = Report(
    items: seq<string>,
    summaryTotal: nat,
    summaryUnique: nat,
    count: nat,
    unique: nat,
    frequency: map<string, nat>,
    config: Option<ConfigEcho>)

  /** What one input item contributes: its stripped form, unless empty. */
  function Kept(item: string): seq<string> {
    var text := Strip(item);
    if text != [] then [text] else []
  }

  /** The stripped items, empty ones dropped, in input order. */
  function Normalized(data: seq<string>): seq<string> {
    ConcatMap(data, Kept)
  }

  /** A kept item: non-empty, without whitespace at either end. */
  predicate IsItem(s: string) {
    s != [] && !IsSpace(s[0]) && !IsSpace(s[|s| - 1])
  }

  /** `config.options or {}`: no options and empty options both echo as {}. */
  function Echo(config: Config): (echo: ConfigEcho)
    ensures echo.name == config.name && echo.value == config.value
    ensures config.options.Some? ==> echo.options == config.options.value
    ensures config.options.None? ==> echo.options == map[]
  {
    ConfigEcho(config.name, config.value, if config.options.Some? then config.options.value else map[])
  }

  /** The summary of the kept items. */
  function Summary(items: seq<string>, config: Option<Config>): Report {
    var frequency := Frequencies(items);
    Report(
      items, |items|, |frequency|, |items|, |frequency|, frequency,
      if config.Some? then Some(Echo(config.value)) else None)
  }

  /** The outcome of `process_data`: ValueError when nothing is kept. */
  function ReportOf(data: seq<string>, config: Option<Config>): Result<Report, string> {
    var items := Normalized(data);
    if items == [] then Failure(EmptyInputMessage) else Success(Summary(items, config))
  }

  /** `process_data(data, config)`: the normalising loop, then the summary. */
  method Process(data: seq<string>, config: Option<Config>) returns (r: Result<Report, string>)
    ensures r == ReportOf(data, config)
  {
    var normalized: seq<string> := [];
    for i := 0 to |data|
      invariant normalized == Normalized(data[..i])
    {
      NormalizedStep(data, i);
      var text := Strip(data[i]);
      if text != [] {
        normalized := normalized + [text];
      }
    }
    assert data[..|data|] == data;
    if normalized == [] {
      return Failure(EmptyInputMessage);
    }
    var frequencies := Frequencies(normalized);
    var uniqueCount := |frequencies|;
    var echo := None;
    if config.Some? {
      echo := Some(Echo(config.value));
    }
    r := Success(Report(
      normalized, |normalized|, uniqueCount, |normalized|, uniqueCount, frequencies, echo));
    assert r.value == Summary(normalized, config);
  }

  /** Reading one more input item appends what it contributes. */
  lemma NormalizedStep(data: seq<string>, i: nat)
    requires i < |data|
    ensures Normalized(data[..i + 1]) == Normalized(data[..i]) + Kept(data[i])
  {
    assert data[..i + 1][..i] == data[..i];
  }

  lemma KeptShape(item: string)
    ensures forall k :: 0 <= k < |Kept(item)| ==> IsItem(Kept(item)[k])
    ensures Kept(item) == [] <==> IsBlank(item)
  {
  }

  lemma KeptNonSpace(item: string)
    ensures NonSpace(Flatten(Kept(item))) == NonSpace(item)
  {
    var text := Strip(item);
    if text != [] {
      assert Kept(item) == [text];
      FlattenSingle(text);
    } else {
      assert Kept(item) == [];
      assert IsBlank(item);
      NonSpaceEmptyIffBlank(item);
    }
  }

  /** Every kept item is non-empty and has no surrounding whitespace. */
  lemma NormalizedItems(data: seq<string>)
    ensures forall k :: 0 <= k < |Normalized(data)| ==> IsItem(Normalized(data)[k])
  {
    forall i, k | 0 <= i < |data| && 0 <= k < |Kept(data[i])| ensures IsItem(Kept(data[i])[k]) {
      KeptShape(data[i]);
    }
    ConcatMapAll(data, Kept, IsItem);
  }

  /** The kept items carry all non-whitespace characters of the input, in order. */
  lemma {:induction false} NormalizedKeepsText(data: seq<string>)
    ensures NonSpace(Flatten(Normalized(data))) == NonSpace(Flatten(data))
  {
    if data != [] {
      NormalizedKeepsText(data[..|data| - 1]);
      KeepsTextStep(data);
    }
  }

  lemma KeepsTextStep(data: seq<string>)
    requires data != []
    requires var init := data[..|data| - 1];
      NonSpace(Flatten(Normalized(init))) == NonSpace(Flatten(init))
    ensures NonSpace(Flatten(Normalized(data))) == NonSpace(Flatten(data))
  {
    var init, last := data[..|data| - 1], data[|data| - 1];
    assert data == init + [last];
    var a, b := Normalized(init), Kept(last);
    assert Normalized(data) == a + b;
    KeptNonSpace(last);
    FlattenAppend(a, b);
    FlattenAppend(init, [last]);
    FlattenSingle(last);
    NonSpaceAppend(Flatten(a), Flatten(b));
    NonSpaceAppend(Flatten(init), last);
    calc {
      NonSpace(Flatten(a + b));
      NonSpace(Flatten(a) + Flatten(b));
      NonSpace(Flatten(a)) + NonSpace(Flatten(b));
      NonSpace(Flatten(init)) + NonSpace(last);
      NonSpace(Flatten(init) + last);
      NonSpace(Flatten(init + [last]));
    }
  }

  /** The input has no non-blank item exactly when `process_data` raises. */
  lemma NormalizedEmpty(data: seq<string>)
    ensures Normalized(data) == [] <==> forall i :: 0 <= i < |data| ==> IsBlank(data[i])
  {
    ConcatMapEmpty(data, Kept);
    forall i | 0 <= i < |data| ensures Kept(data[i]) == [] <==> IsBlank(data[i]) {
      KeptShape(data[i]);
    }
  }

  /** The counts of the summary: `count` and the total are the number of
      kept items, `unique` is the number of distinct ones and of keys in
      `frequency`, each frequency is that item's number of occurrences, and
      they add up to `count`. */
  lemma SummaryCounts(items: seq<string>, config: Option<Config>)
    ensures var report := Summary(items, config);
      && report.items == items
      && report.count == report.summaryTotal == |items|
      && report.unique == report.summaryUnique == |report.frequency.Keys|
      && report.frequency.Keys == set x | x in items
      && (forall x :: x in report.frequency ==> report.frequency[x] == multiset(items)[x] >= 1)
      && SumValues(report.frequency) == |items|
  {
    FrequenciesKeys(items);
    FrequenciesSum(items);
    forall x | x in Frequencies(items) ensures Frequencies(items)[x] == multiset(items)[x] >= 1 {
      FrequenciesCount(items, x);
    }
  }

  /** A given config is echoed back, with no options read as {}; without
      one the result has no "config" entry. */
  lemma SummaryEcho(items: seq<string>, config: Option<Config>)
    ensures var echo := Summary(items, config).config;
      && (config.None? ==> echo.None?)
      && (config.Some? ==>
            && echo == Some(ConfigEcho(config.value.name, config.value.value, config.value.options.GetOr(map[]))))
  {
  }

  /** An item that is already stripped and non-empty is kept as it is. */
  lemma KeptItem(s: string)
    requires IsItem(s)
    ensures Kept(s) == [s]
  {
    StripUnpadded(s);
  }

  /** Normalising the kept items again changes nothing. */
  lemma NormalizedIdempotent(data: seq<string>)
    ensures Normalized(Normalized(data)) == Normalized(data)
  {
    NormalizedItems(data);
    NormalizedOfItems(Normalized(data));
  }

  lemma NormalizedOfItems(items: seq<string>)
    requires forall k :: 0 <= k < |items| ==> IsItem(items[k])
    ensures Normalized(items) == items
  {
    forall i | 0 <= i < |items| ensures Kept(items[i]) == [items[i]] {
      KeptItem(items[i]);
    }
    ConcatMapOfSingletons(items, Kept);
  }

  lemma KeptPaddedExample()
    ensures Kept(" alpha ") == ["alpha"]
  {
    assert !IsSpace('a') && IsSpace(' ');
    assert TrimLeft(" alpha "[1..]) == "alpha ";
    assert TrimLeft(" alpha ") == "alpha ";
    assert "alpha "[..5] == "alpha";
    assert TrimRight("alpha ") == "alpha";
    assert Strip(" alpha ") == "alpha";
  }

  /** The summary of the items "alpha", "beta", "alpha": three of them,
      two distinct, "alpha" twice. */
  lemma SummaryExample()
    ensures var report := Summary(["alpha", "beta", "alpha"], None);
      && report.count == 3 && report.unique == 2
      && report.frequency == map["alpha" := 2, "beta" := 1]
  {
    var items := ["alpha", "beta", "alpha"];
    assert items[..2][..1] == ["alpha"] && items[..2] == ["alpha", "beta"] && ["alpha"][..0] == [];
    assert Frequencies(items) == map["alpha" := 2, "beta" := 1];
  }
}
