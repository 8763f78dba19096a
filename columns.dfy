/** Column-role resolution: which header of a sheet holds the dates, the
    years or the values. Each role has an alias rule; the first header that
    satisfies it wins, and when none does a fixed position is used. */
module Columns {
  import opened Text

  /** The five header searches of the loaders. */
  datatype Role =
    | PriceDate   // load_luse_prices: the trading date
    | CpiDate     // load_cpi: the month or period
    | CpiValue    // load_cpi: the index level
    | GdpYear     // load_gdp_annual: the year
    | GdpValue    // load_gdp_annual: the GDP figure

  /** The form a label is compared in: stripped, then lower-cased. */
  function Normal(h: string): string {
    Lower(Trim(h))
  }

  /** Whether header `h` satisfies the alias rule of `role`. The date and year
      rules compare the stripped, lower-cased label with a fixed set; the value
      rules look for substrings of the lower-cased label. */
  predicate Matches(role: Role, h: string) {
    match role
    case PriceDate => Normal(h) in {"date", "dates", "trading date", "day"}
    case CpiDate => Normal(h) in {"date", "month", "period"}
    case GdpYear => Normal(h) in {"year", "yr"}
    case CpiValue => Contains(Lower(h), "cpi") || Contains(Lower(h), "index")
    case GdpValue =>
      var lc := Lower(h);
      Contains(lc, "gdp") && (Contains(lc, "constant") || Contains(lc, "current") || Contains(lc, "value"))
  }

  /** The CPI value rule: "cpi" or "index" occurs somewhere in the
      lower-cased label. */
  lemma CpiValueRule(h: string)
    ensures Matches(CpiValue, h) <==>
      (exists i :: OccursAt(Lower(h), "cpi", i)) || (exists i :: OccursAt(Lower(h), "index", i))
  {
    ContainsIffOccurs(Lower(h), "cpi");
    ContainsIffOccurs(Lower(h), "index");
  }

  /** The GDP value rule: "gdp" occurs in the lower-cased label, and so does
      one of "constant", "current" or "value". */
  lemma GdpValueRule(h: string)
    ensures Matches(GdpValue, h) <==>
      && (exists i :: OccursAt(Lower(h), "gdp", i))
      && ((exists i :: OccursAt(Lower(h), "constant", i))
          || (exists i :: OccursAt(Lower(h), "current", i))
          || (exists i :: OccursAt(Lower(h), "value", i)))
  {
    var lc := Lower(h);
    ContainsIffOccurs(lc, "gdp");
    ContainsIffOccurs(lc, "constant");
    ContainsIffOccurs(lc, "current");
    ContainsIffOccurs(lc, "value");
  }

  predicate IsValueRole(role: Role) {
    role == CpiValue || role == GdpValue
  }

  /** The positional default: the last column for a value, the first otherwise. */
  function Fallback(role: Role, n: nat): (k: nat)
    requires n > 0
    ensures k < n
  {
    if IsValueRole(role) then n - 1 else 0
  }

  /** The alias rule of `role` as a test on labels. */
  function Rule(role: Role): string -> bool {
    h => Matches(role, h)
  }

  /** `k` is the column the loaders use for `role`: the first header the
      role's rule accepts, or the positional default when it accepts none. */
  predicate IsResolution(role: Role, headers: seq<string>, k: nat) {
    && 0 < |headers|
    && k < |headers|
    && var accept := Rule(role);
    ((accept(headers[k]) && forall j :: 0 <= j < k ==> !accept(headers[j]))
     || ((forall j :: 0 <= j < |headers| ==> !accept(headers[j])) && k == Fallback(role, |headers|)))
  }

  /** The header scan: a for loop over the labels that stops at the first one
      `accept` takes. */
  method ScanHeaders(headers: seq<string>, accept: string -> bool) returns (found: bool, k: nat)
    ensures found ==> k < |headers| && accept(headers[k])
                      && forall j :: 0 <= j < k ==> !accept(headers[j])
    ensures !found ==> forall j :: 0 <= j < |headers| ==> !accept(headers[j])
  {
    found, k := false, 0;
    for i := 0 to |headers|
      invariant !found
      invariant forall j :: 0 <= j < i ==> !accept(headers[j])
    {
      if accept(headers[i]) {
        found, k := true, i;
        break;
      }
    }
  }

  /** The column for `role`: the scan with the role's alias rule, then the
      positional fallback. It never fails on a non-empty header list. */
  method Resolve(role: Role, headers: seq<string>) returns (k: nat)
    requires |headers| > 0
    ensures IsResolution(role, headers, k)
  {
    var found;
    found, k := ScanHeaders(headers, Rule(role));
    if !found {
      k := Fallback(role, |headers|);
    }
  }

  /** At most one column resolves a role: the rule is deterministic. */
  lemma ResolutionIsUnique(role: Role, headers: seq<string>, k1: nat, k2: nat)
    requires IsResolution(role, headers, k1) && IsResolution(role, headers, k2)
    ensures k1 == k2
  {
  }

  lemma LowerCharIdempotent(c: char)
    ensures LowerChar(LowerChar(c)) == LowerChar(c)
  {
  }

  lemma {:induction false} LowerIdempotent(s: string)
    ensures Lower(Lower(s)) == Lower(s)
  {
    forall i | 0 <= i < |s| ensures Lower(Lower(s))[i] == Lower(s)[i] {
      LowerCharIdempotent(s[i]);
    }
  }

  /** Lower-casing keeps whitespace whitespace and everything else not. */
  lemma LowerKeepsSpace(c: char)
    ensures IsSpace(LowerChar(c)) == IsSpace(c)
  {
  }

  lemma {:induction false} TrimStartOfLower(s: string)
    ensures TrimStart(Lower(s)) == Lower(TrimStart(s))
    decreases |s|
  {
    if s != [] {
      var low := Lower(s);
      LowerKeepsSpace(s[0]);
      assert low[0] == LowerChar(s[0]);
      if IsSpace(s[0]) {
        assert low[1..] == Lower(s[1..]);
        TrimStartOfLower(s[1..]);
        assert TrimStart(low) == TrimStart(low[1..]);
        assert TrimStart(s) == TrimStart(s[1..]);
      } else {
        assert TrimStart(low) == low && TrimStart(s) == s;
      }
    }
  }

  lemma {:induction false} TrimEndOfLower(s: string)
    ensures TrimEnd(Lower(s)) == Lower(TrimEnd(s))
    decreases |s|
  {
    if s != [] {
      var l := |s| - 1;
      var low := Lower(s);
      LowerKeepsSpace(s[l]);
      assert low[l] == LowerChar(s[l]);
      if IsSpace(s[l]) {
        assert low[..l] == Lower(s[..l]);
        TrimEndOfLower(s[..l]);
        assert TrimEnd(low) == TrimEnd(low[..l]);
        assert TrimEnd(s) == TrimEnd(s[..l]);
      } else {
        assert TrimEnd(low) == low && TrimEnd(s) == s;
      }
    }
  }

  lemma {:induction false} TrimStartIdempotent(s: string)
    ensures TrimStart(TrimStart(s)) == TrimStart(s)
    decreases |s|
  {
    if s != [] && IsSpace(s[0]) {
      TrimStartIdempotent(s[1..]);
    }
  }

  lemma {:induction false} TrimEndIdempotent(s: string)
    ensures TrimEnd(TrimEnd(s)) == TrimEnd(s)
    decreases |s|
  {
    if s != [] && IsSpace(s[|s| - 1]) {
      TrimEndIdempotent(s[..|s| - 1]);
    }
  }

  lemma {:induction false} TrimEndKeepsStart(s: string)
    requires s == [] || !IsSpace(s[0])
    ensures TrimStart(TrimEnd(s)) == TrimEnd(s)
  {
    var r := TrimEnd(s);
    var k :| 0 <= k <= |s| && r == s[..k] && forall i :: k <= i < |s| ==> IsSpace(s[i]);
    if r != [] {
      assert r[0] == s[0];
    }
  }

  lemma NormalIdempotent(h: string)
    ensures Normal(Normal(h)) == Normal(h)
  {
    var t := Trim(h);
    TrimStartOfLower(t);
    TrimEndOfLower(TrimStart(Lower(t)));
    TrimStartOfLower(h);
    TrimEndOfLower(TrimStart(h));
    // Trim(Lower(t)) == Lower(Trim(t)), and Trim(t) == t.
    TrimEndKeepsStart(TrimStart(h));
    TrimStartIdempotent(h);
    TrimEndIdempotent(TrimStart(h));
    LowerIdempotent(Trim(h));
  }

  lemma NormalOfLower(h: string)
    ensures Normal(Lower(h)) == Normal(h)
  {
    TrimStartOfLower(h);
    TrimEndOfLower(TrimStart(h));
    LowerIdempotent(Trim(h));
  }

  /** Header matching ignores letter case: a label and its lower-cased form
      resolve every role alike. */
  lemma MatchIgnoresCase(role: Role, h: string)
    ensures Matches(role, Lower(h)) == Matches(role, h)
  {
    LowerIdempotent(h);
    NormalOfLower(h);
  }

  /** For the date and year roles only the stripped, lower-cased label counts:
      surrounding whitespace and capitals never change the resolution. */
  lemma ExactMatchIgnoresPadding(role: Role, h: string)
    requires !IsValueRole(role)
    ensures Matches(role, Normal(h)) == Matches(role, h)
  {
    NormalIdempotent(h);
  }
}

/** Worked resolutions from the loaders' documented behaviour. */
module ColumnExamples {
  import opened Text
  import opened Columns

  lemma TrimOfUnpadded(s: string)
    requires s != [] && !IsSpace(s[0]) && !IsSpace(s[|s| - 1])
    ensures Trim(s) == s
  {
  }

  lemma TradingDateLower()
    ensures Lower("Trading Date") == "trading date"
  {
    var l := Lower("Trading Date");
    forall i | 0 <= i < 12 ensures l[i] == "trading date"[i] {
    }
  }

  lemma TradingDateIsNormal()
    ensures Normal("Trading Date") == "trading date"
  {
    var h := "Trading Date";
    assert !IsSpace(h[0]) && !IsSpace(h[|h| - 1]);
    TrimOfUnpadded(h);
    TradingDateLower();
  }

  /** The price sheet ["Trading Date", "ZCCM", "CEC"] takes its dates from
      "Trading Date". */
  method TradingDateHeader() returns (k: nat)
    ensures k == 0
  {
    var headers := ["Trading Date", "ZCCM", "CEC"];
    TradingDateIsNormal();
    assert Matches(PriceDate, headers[0]);
    k := Resolve(PriceDate, headers);
  }

  lemma YearLower()
    ensures Lower("Year") == "year"
  {
    var l := Lower("Year");
    forall i | 0 <= i < 4 ensures l[i] == "year"[i] {
    }
  }

  lemma MonthLower()
    ensures Lower("Month") == "month"
  {
    var l := Lower("Month");
    forall i | 0 <= i < 5 ensures l[i] == "month"[i] {
    }
  }

  /** The CPI sheet ["Year", "Month", "CPI"] takes its dates from "Month",
      which holds month numbers, not from "Year". */
  method YearMonthCpiHeader() returns (k: nat)
    ensures k == 1
  {
    var headers := ["Year", "Month", "CPI"];
    TrimOfUnpadded(headers[0]);
    TrimOfUnpadded(headers[1]);
    YearLower();
    MonthLower();
    assert !Matches(CpiDate, headers[0]) && Matches(CpiDate, headers[1]);
    k := Resolve(CpiDate, headers);
  }
}
