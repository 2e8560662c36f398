/** JavaScript value and string semantics that the handler relies on:
    truthiness of optional strings, the ECMAScript white-space set,
    String.prototype.trim, and String.prototype.split with the separator
    pattern \s*,\s* (a comma with the white space around it) used to turn a recipient string into an address list. */
module Js {

  datatype Option<+T> = None | Some(value: T)

  /** A string-valued property read as a JavaScript condition: an absent
      property (undefined) and the empty string are falsy. */
  predicate Truthy(o: Option<string>) {
    o.Some? && o.value != ""
  }

  /** A key of a string-valued record read as a condition (`body.key`). */
  predicate TruthyField(fields: map<string, string>, key: string) {
    key in fields && fields[key] != ""
  }

  /** `o || d` for an optional string. */
  function OrDefault(o: Option<string>, d: string): (r: string)
    ensures Truthy(o) ==> r == o.value
    ensures !Truthy(o) ==> r == d
  {
    if Truthy(o) then o.value else d
  }

  /** LineTerminator of ECMA-262 section 12.3. */
  predicate IsLineTerminator(c: char) {
    c == '\n' || c == '\r' || c == '\U{2028}' || c == '\U{2029}'
  }

  /** WhiteSpace (ECMA-262 section 12.2, including the Zs category) together
      with LineTerminator: the set that trim() strips and that \s matches. */
  predicate IsWhiteSpace(c: char) {
    || c == '\t' || c == '\U{000B}' || c == '\U{000C}' || c == ' '
    || c == '\U{00A0}' || c == '\U{1680}' || '\U{2000}' <= c <= '\U{200A}'
    || c == '\U{202F}' || c == '\U{205F}' || c == '\U{3000}' || c == '\U{FEFF}'
    || IsLineTerminator(c)
  }

  predicate AllWhiteSpace(s: string) {
    forall i | 0 <= i < |s| :: IsWhiteSpace(s[i])
  }

  /** Every character of `s` at an index in [lo, hi) is white space. */
  predicate WhiteSpaceBetween(s: string, lo: int, hi: int) {
    forall i | lo <= i < hi && 0 <= i < |s| :: IsWhiteSpace(s[i])
  }

  /** Where the run of white space that starts at index `i` of `s` ends:
      the first index from `i` on that is not white space, or `|s|`. */
  function SkipWhiteSpace(s: string, i: nat): (j: nat)
    requires i <= |s|
    ensures i <= j <= |s|
    ensures j == |s| || !IsWhiteSpace(s[j])
    decreases |s| - i
  {
    if i < |s| && IsWhiteSpace(s[i]) then SkipWhiteSpace(s, i + 1) else i
  }

  /** What SkipWhiteSpace skips is white space only. */
  lemma {:induction false} SkippedIsWhiteSpace(s: string, i: nat)
    requires i <= |s|
    ensures WhiteSpaceBetween(s, i, SkipWhiteSpace(s, i))
    decreases |s| - i
  {
    if i < |s| && IsWhiteSpace(s[i]) {
      SkippedIsWhiteSpace(s, i + 1);
    }
  }

  /** Where the run of white space that ends before index `j` of `s`
      starts, going back no further than `lo`. */
  function BackOverWhiteSpace(s: string, lo: nat, j: nat): (k: nat)
    requires lo <= j <= |s|
    ensures lo <= k <= j
    ensures k == lo || !IsWhiteSpace(s[k - 1])
    decreases j
  {
    if lo < j && IsWhiteSpace(s[j - 1]) then BackOverWhiteSpace(s, lo, j - 1) else j
  }

  /** What BackOverWhiteSpace steps back over is white space only. */
  lemma {:induction false} SteppedBackIsWhiteSpace(s: string, lo: nat, j: nat)
    requires lo <= j <= |s|
    ensures WhiteSpaceBetween(s, BackOverWhiteSpace(s, lo, j), j)
    decreases j
  {
    if lo < j && IsWhiteSpace(s[j - 1]) {
      SteppedBackIsWhiteSpace(s, lo, j - 1);
    }
  }

  /** String.prototype.trim: the text between the leading and the trailing
      white space, which neither starts nor ends with white space. */
  function Trim(s: string): (r: string)
    ensures |r| <= |s|
    ensures r == [] || (!IsWhiteSpace(r[0]) && !IsWhiteSpace(r[|r| - 1]))
  {
    var i := SkipWhiteSpace(s, 0);
    s[i..BackOverWhiteSpace(s, i, |s|)]
  }

  lemma ThreeParts(s: string, i: nat, j: nat)
    requires i <= j <= |s|
    ensures s == s[..i] + s[i..j] + s[j..]
  {
    assert s[..j] == s[..i] + s[i..j];
    assert s == s[..j] + s[j..];
  }

  /** Trim removes white space only, from both ends: `s` is white space up
      to `i`, then the trimmed text up to `j`, then white space. */
  lemma TrimDropsWhiteSpace(s: string)
    ensures var i := SkipWhiteSpace(s, 0); var j := BackOverWhiteSpace(s, i, |s|);
      && i <= j <= |s|
      && s == s[..i] + Trim(s) + s[j..]
      && WhiteSpaceBetween(s, 0, i) && WhiteSpaceBetween(s, j, |s|)
  {
    var i := SkipWhiteSpace(s, 0);
    var j := BackOverWhiteSpace(s, i, |s|);
    SkippedIsWhiteSpace(s, 0);
    SteppedBackIsWhiteSpace(s, i, |s|);
    assert Trim(s) == s[i..j];
    ThreeParts(s, i, j);
  }

  /** Trim yields the empty string exactly for a string of white space. */
  lemma TrimEmptyIff(s: string)
    ensures Trim(s) == [] <==> AllWhiteSpace(s)
  {
    TrimDropsWhiteSpace(s);
    if Trim(s) != [] {
      assert Trim(s)[0] == s[SkipWhiteSpace(s, 0)];
    }
  }

  /** Trimming a string that has no white space at either end changes nothing. */
  lemma TrimOfTrimmed(s: string)
    requires s == [] || (!IsWhiteSpace(s[0]) && !IsWhiteSpace(s[|s| - 1]))
    ensures Trim(s) == s
  {
    assert SkipWhiteSpace(s, 0) == 0;
    assert BackOverWhiteSpace(s, 0, |s|) == |s|;
    assert s[0..|s|] == s;
  }

  /** trim() is idempotent. */
  lemma TrimIdempotent(s: string)
    ensures Trim(Trim(s)) == Trim(s)
  {
    TrimOfTrimmed(Trim(s));
  }

  /** No character of `s` at an index in [lo, hi) is a comma. */
  predicate NoCommaBetween(s: string, lo: int, hi: int) {
    forall k | lo <= k < hi && 0 <= k < |s| :: s[k] != ','
  }

  /** The index of the first comma of `s` at or after `i`, if any. */
  function CommaFrom(s: string, i: nat): (r: Option<nat>)
    requires i <= |s|
    ensures r.Some? ==> i <= r.value < |s| && s[r.value] == ','
    decreases |s| - i
  {
    if i == |s| then None
    else if s[i] == ',' then Some(i)
    else CommaFrom(s, i + 1)
  }

  /** CommaFrom finds the first comma: there is none before the index it
      returns, and none at all from `i` on when it returns nothing. */
  lemma {:induction false} CommaFromIsFirst(s: string, i: nat)
    requires i <= |s|
    ensures CommaFrom(s, i).None? ==> NoCommaBetween(s, i, |s|)
    ensures CommaFrom(s, i).Some? ==> NoCommaBetween(s, i, CommaFrom(s, i).value)
    decreases |s| - i
  {
    if i < |s| && s[i] != ',' {
      CommaFromIsFirst(s, i + 1);
    }
  }

  /** Conversely, a comma with no comma between `i` and it is the one
      CommaFrom finds. */
  lemma {:induction false} CommaFromAt(s: string, i: nat, c: nat)
    requires i <= c < |s| && s[c] == ',' && NoCommaBetween(s, i, c)
    ensures CommaFrom(s, i) == Some(c)
    decreases c - i
  {
    if i < c {
      CommaFromAt(s, i + 1, c);
    }
  }

  /** `s[i..].split` with the pattern \s*,\s*. The pattern matches exactly a
      comma together with the whole run of white space on either side of it
      (a white-space character is never a comma, so the greedy \s* cannot
      end anywhere but before the comma), and the earliest match is taken
      first. So each piece ends where the white space before the next comma
      starts, and the next piece starts after the white space that follows
      that comma. The first piece keeps its leading white space and the last
      its trailing. */
  function SplitFrom(s: string, i: nat): (r: seq<string>)
    requires i <= |s|
    ensures |r| >= 1
    decreases |s| - i
  {
    var c := CommaFrom(s, i);
    if c.None? then [s[i..]]
    else [s[i..BackOverWhiteSpace(s, i, c.value)]] + SplitFrom(s, SkipWhiteSpace(s, c.value + 1))
  }

  /** `s.split` with the pattern \s*,\s*, as `create` splits a `to` string. */
  function SplitAddressList(s: string): (r: seq<string>)
    ensures |r| >= 1
  {
    SplitFrom(s, 0)
  }

  /** One step of the split: the piece before the first comma and the
      white space before it, then the split of what follows that comma and
      the white space after it. */
  lemma SplitFromStep(s: string, i: nat, c: nat)
    requires i <= |s| && CommaFrom(s, i) == Some(c)
    ensures SplitFrom(s, i) ==
      [s[i..BackOverWhiteSpace(s, i, c)]] + SplitFrom(s, SkipWhiteSpace(s, c + 1))
  {
  }

  /** The number of commas in `s`. */
  function CommaCount(s: string): nat {
    multiset(s)[',']
  }

  /** The number of commas in `s` from index `i` on, counted along the
      string. */
  function CommasFrom(s: string, i: nat): nat
    requires i <= |s|
    decreases |s| - i
  {
    if i == |s| then 0 else (if s[i] == ',' then 1 else 0) + CommasFrom(s, i + 1)
  }

  /** Counting along the string counts the commas of the rest of it. */
  lemma {:induction false} CommasFromCounts(s: string, i: nat)
    requires i <= |s|
    ensures CommasFrom(s, i) == CommaCount(s[i..])
    decreases |s| - i
  {
    if i < |s| {
      CommasFromCounts(s, i + 1);
      assert s[i..] == [s[i]] + s[i + 1..];
      assert multiset(s[i..]) == multiset([s[i]]) + multiset(s[i + 1..]);
    }
  }

  /** Stretches without a comma add nothing to the count. */
  lemma {:induction false} CommasFromSkip(s: string, i: nat, k: nat)
    requires i <= k <= |s| && NoCommaBetween(s, i, k)
    ensures CommasFrom(s, i) == CommasFrom(s, k)
    decreases k - i
  {
    if i < k {
      CommasFromSkip(s, i + 1, k);
    }
  }

  /** One step of the split, on the comma count: the first comma from `i`
      on, and the white space after it, which holds no comma. */
  lemma CommasFromStep(s: string, i: nat, c: nat)
    requires i <= |s| && CommaFrom(s, i) == Some(c)
    ensures CommasFrom(s, i) == 1 + CommasFrom(s, SkipWhiteSpace(s, c + 1))
  {
    CommaFromIsFirst(s, i);
    CommasFromSkip(s, i, c);
    SkippedIsWhiteSpace(s, c + 1);
    CommasFromSkip(s, c + 1, SkipWhiteSpace(s, c + 1));
  }

  /** One step of the split, with where the first piece ends (`k`) and where
      the next one starts (`j`) already known. */
  lemma SplitFromStepAt(s: string, i: nat, c: nat, k: nat, j: nat)
    requires i <= |s| && CommaFrom(s, i) == Some(c)
    requires BackOverWhiteSpace(s, i, c) == k && SkipWhiteSpace(s, c + 1) == j
    ensures i <= k <= |s| && j <= |s| && SplitFrom(s, i) == [s[i..k]] + SplitFrom(s, j)
  {
    SplitFromStep(s, i, c);
  }

  /** One step of the split, counted. */
  lemma SplitFromStepLength(s: string, i: nat, c: nat)
    requires i <= |s| && CommaFrom(s, i) == Some(c)
    ensures |SplitFrom(s, i)| == 1 + |SplitFrom(s, SkipWhiteSpace(s, c + 1))|
  {
    SplitFromStep(s, i, c);
  }

  /** The count carries over one step of the split. */
  lemma SplitFromCountStep(s: string, i: nat, c: nat, j: nat)
    requires i <= |s| && CommaFrom(s, i) == Some(c) && j == SkipWhiteSpace(s, c + 1)
    requires |SplitFrom(s, j)| == CommasFrom(s, j) + 1
    ensures |SplitFrom(s, i)| == CommasFrom(s, i) + 1
  {
    SplitFromStepLength(s, i, c);
    CommasFromStep(s, i, c);
  }

  /** The count when there is no comma left. */
  lemma SplitFromCountLast(s: string, i: nat)
    requires i <= |s| && CommaFrom(s, i).None?
    ensures |SplitFrom(s, i)| == CommasFrom(s, i) + 1
  {
    CommaFromIsFirst(s, i);
    CommasFromSkip(s, i, |s|);
  }

  /** The split yields one address more than the text has commas. */
  lemma {:induction false} SplitFromCount(s: string, i: nat)
    requires i <= |s|
    ensures |SplitFrom(s, i)| == CommasFrom(s, i) + 1
    decreases |s| - i
  {
    var c := CommaFrom(s, i);
    if c.None? {
      SplitFromCountLast(s, i);
    } else {
      var j := SkipWhiteSpace(s, c.value + 1);
      SplitFromCount(s, j);
      SplitFromCountStep(s, i, c.value, j);
    }
  }

  /** Splitting `to` with the pattern \s*,\s* yields one address more than `to` has commas. */
  lemma SplitAddressListCount(s: string)
    ensures |SplitAddressList(s)| == CommaCount(s) + 1
  {
    SplitFromCount(s, 0);
    CommasFromCounts(s, 0);
    assert s[0..] == s;
  }

  /** None of the addresses contains a comma. */
  predicate NoCommaInAny(r: seq<string>) {
    forall k | 0 <= k < |r| :: ',' !in r[k]
  }

  lemma NoCommaPiece(s: string, i: nat, k: nat)
    requires i <= k <= |s| && NoCommaBetween(s, i, k)
    ensures ',' !in s[i..k]
  {
    forall m | 0 <= m < k - i
      ensures s[i..k][m] != ','
    {
      assert s[i..k][m] == s[i + m];
    }
  }

  lemma NoCommaInAnyCons(p: string, q: seq<string>)
    requires ',' !in p && NoCommaInAny(q)
    ensures NoCommaInAny([p] + q)
  {
    forall k | 0 <= k < |[p] + q|
      ensures ',' !in ([p] + q)[k]
    {
      if k > 0 {
        assert ([p] + q)[k] == q[k - 1];
      }
    }
  }

  /** The piece before the first comma has no comma, so one step of the
      split keeps every piece free of commas. */
  lemma SplitPiecesStep(s: string, i: nat, c: nat, k: nat, j: nat)
    requires i <= |s| && CommaFrom(s, i) == Some(c)
    requires k == BackOverWhiteSpace(s, i, c) && j == SkipWhiteSpace(s, c + 1)
    requires NoCommaInAny(SplitFrom(s, j))
    ensures NoCommaInAny(SplitFrom(s, i))
  {
    SplitFromStepAt(s, i, c, k, j);
    CommaFromIsFirst(s, i);
    NoCommaPiece(s, i, k);
    NoCommaInAnyCons(s[i..k], SplitFrom(s, j));
  }

  /** Without a comma left, the one piece has none. */
  lemma SplitPiecesLast(s: string, i: nat)
    requires i <= |s| && CommaFrom(s, i).None?
    ensures NoCommaInAny(SplitFrom(s, i))
  {
    CommaFromIsFirst(s, i);
    NoCommaPiece(s, i, |s|);
    assert s[i..|s|] == s[i..];
  }

  /** No address the split yields contains a comma. */
  lemma {:induction false} SplitPiecesHaveNoComma(s: string, i: nat)
    requires i <= |s|
    ensures NoCommaInAny(SplitFrom(s, i))
    decreases |s| - i
  {
    var c := CommaFrom(s, i);
    if c.None? {
      SplitPiecesLast(s, i);
    } else {
      var k := BackOverWhiteSpace(s, i, c.value);
      var j := SkipWhiteSpace(s, c.value + 1);
      SplitPiecesHaveNoComma(s, j);
      SplitPiecesStep(s, i, c.value, k, j);
    }
  }

  /** The split keeps the leading white space: the first address is a
      prefix of the text. */
  lemma SplitFirstIsPrefix(s: string, i: nat)
    requires i <= |s|
    ensures SplitFrom(s, i)[0] <= s[i..]
  {
    var c := CommaFrom(s, i);
    if c.Some? {
      var k := BackOverWhiteSpace(s, i, c.value);
      var j := SkipWhiteSpace(s, c.value + 1);
      SplitFromStepAt(s, i, c.value, k, j);
      SliceIsPrefix(s, i, k);
    }
  }

  lemma SliceIsPrefix(s: string, i: nat, k: nat)
    requires i <= k <= |s|
    ensures s[i..k] <= s[i..]
  {
    assert s[i..] == s[i..k] + s[k..];
  }

  /** The last address the split of `s[i..]` yields. */
  function LastAddress(s: string, i: nat): string
    requires i <= |s|
  {
    var r := SplitFrom(s, i);
    r[|r| - 1]
  }

  /** One step of the split leaves the last address as it is. */
  lemma LastAddressStep(s: string, i: nat, c: nat, k: nat, j: nat)
    requires i <= |s| && CommaFrom(s, i) == Some(c)
    requires k == BackOverWhiteSpace(s, i, c) && j == SkipWhiteSpace(s, c + 1)
    ensures LastAddress(s, i) == LastAddress(s, j)
  {
    SplitFromStepAt(s, i, c, k, j);
    LastOfCons(SplitFrom(s, i), s[i..k], SplitFrom(s, j));
  }

  lemma LastOfCons(r: seq<string>, p: string, q: seq<string>)
    requires |q| >= 1 && r == [p] + q
    ensures r[|r| - 1] == q[|q| - 1]
  {
  }

  /** The split keeps the trailing white space: the last address is a
      suffix of the text. */
  lemma {:induction false} SplitLastIsSuffix(s: string, i: nat)
    requires i <= |s|
    ensures |LastAddress(s, i)| <= |s| - i && LastAddress(s, i) == s[|s| - |LastAddress(s, i)|..]
    decreases |s| - i
  {
    var c := CommaFrom(s, i);
    if c.Some? {
      var k := BackOverWhiteSpace(s, i, c.value);
      var j := SkipWhiteSpace(s, c.value + 1);
      SplitLastIsSuffix(s, j);
      LastAddressStep(s, i, c.value, k, j);
    }
  }

  /** SkipWhiteSpace from `i` stops at `j` when `s[i..j]` is white space
      and `s[j]` is not (or `j` is the end). */
  lemma {:induction false} SkipOverRun(s: string, i: nat, j: nat)
    requires i <= j <= |s| && WhiteSpaceBetween(s, i, j)
    requires j == |s| || !IsWhiteSpace(s[j])
    ensures SkipWhiteSpace(s, i) == j
    decreases j - i
  {
    if i < j {
      SkipOverRun(s, i + 1, j);
    }
  }

  /** BackOverWhiteSpace from `j` stops at `k` when `s[k..j]` is white
      space and `s[k - 1]` is not (or `k` is the bound). */
  lemma {:induction false} BackOverRun(s: string, lo: nat, k: nat, j: nat)
    requires lo <= k <= j <= |s| && WhiteSpaceBetween(s, k, j)
    requires k == lo || !IsWhiteSpace(s[k - 1])
    ensures BackOverWhiteSpace(s, lo, j) == k
    decreases j - k
  {
    if k < j {
      BackOverRun(s, lo, k, j - 1);
    }
  }

  /** The separator between two addresses in a written list: white space,
      a comma, white space. */
  datatype Gap = Gap(before: string, after: string)

  predicate BlankGap(g: Gap) {
    AllWhiteSpace(g.before) && AllWhiteSpace(g.after)
  }

  function Separator(g: Gap): string {
    g.before + "," + g.after
  }

  /** `xs` written as a list, with the separator `gaps[k]` between `xs[k]`
      and `xs[k + 1]`. */
  function JoinAddresses(xs: seq<string>, gaps: seq<Gap>): string
    requires |xs| >= 1 && |gaps| == |xs| - 1
  {
    if |xs| == 1 then xs[0]
    else xs[0] + (Separator(gaps[0]) + JoinAddresses(xs[1..], gaps[1..]))
  }

  /** An address as written in a list: non-empty, without a comma, and
      without white space at either end. */
  predicate BareAddress(x: string) {
    x != [] && ',' !in x && !IsWhiteSpace(x[0]) && !IsWhiteSpace(x[|x| - 1])
  }

  lemma JoinedStartsBare(xs: seq<string>, gaps: seq<Gap>)
    requires |xs| >= 1 && |gaps| == |xs| - 1 && BareAddress(xs[0])
    ensures JoinAddresses(xs, gaps) != [] && JoinAddresses(xs, gaps)[0] == xs[0][0]
  {
  }

  /** Where `u + v` sits at index `i` of `s`, `u` is at `i` and `v` right
      after it. */
  lemma Occurs(s: string, i: nat, u: string, v: string)
    requires i <= |s| && s[i..] == u + v
    ensures i + |u| <= |s| && s[i..i + |u|] == u && s[i + |u|..] == v
  {
    assert s[i..][..|u|] == u;
    assert s[i..][|u|..] == v;
  }

  /** A bare address at index `i` of `s`. */
  lemma BareAt(s: string, i: nat, x: string)
    requires BareAddress(x) && i + |x| <= |s| && s[i..i + |x|] == x
    ensures NoCommaBetween(s, i, i + |x|) && !IsWhiteSpace(s[i + |x| - 1])
  {
    forall k | i <= k < i + |x|
      ensures s[k] != ','
    {
      assert s[k] == x[k - i];
    }
    assert s[i + |x| - 1] == x[|x| - 1];
  }

  /** A blank separator at index `p` of `s`: white space, the comma, white
      space. */
  lemma SeparatorAt(s: string, p: nat, g: Gap)
    requires BlankGap(g) && p + |Separator(g)| <= |s| && s[p..p + |Separator(g)|] == Separator(g)
    ensures var c := p + |g.before|;
      && c < |s| && s[c] == ','
      && WhiteSpaceBetween(s, p, c)
      && WhiteSpaceBetween(s, c + 1, p + |Separator(g)|)
  {
    var sep := Separator(g);
    var c := p + |g.before|;
    forall k | p <= k < c
      ensures IsWhiteSpace(s[k])
    {
      assert s[k] == sep[k - p] == g.before[k - p];
    }
    assert s[c] == sep[|g.before|] == ',';
    forall k | c + 1 <= k < p + |sep|
      ensures IsWhiteSpace(s[k])
    {
      assert s[k] == sep[k - p] == g.after[k - c - 1];
    }
  }

  /** Where a list with at least two addresses is written at index `i` of
      `s`: the first address, then its separator, with the comma at `c`,
      then the rest of the list from `j` on. */
  lemma JoinLayout(s: string, i: nat, xs: seq<string>, gaps: seq<Gap>) returns (c: nat, j: nat)
    requires i <= |s| && |xs| >= 2 && |gaps| == |xs| - 1
    requires s[i..] == JoinAddresses(xs, gaps)
    ensures c == i + |xs[0]| + |gaps[0].before| && j == c + 1 + |gaps[0].after| && j <= |s|
    ensures s[i..i + |xs[0]|] == xs[0]
    ensures s[i + |xs[0]|..j] == Separator(gaps[0])
    ensures s[j..] == JoinAddresses(xs[1..], gaps[1..])
  {
    var n := |xs[0]|;
    var sep := Separator(gaps[0]);
    var tail := JoinAddresses(xs[1..], gaps[1..]);
    c := i + n + |gaps[0].before|;
    j := i + n + |sep|;
    Occurs(s, i, xs[0], sep + tail);
    Occurs(s, i + n, sep, tail);
  }

  /** The next address of a written list starts right after the white
      space that follows its comma. */
  lemma NextAddressAt(s: string, j: nat, xs: seq<string>, gaps: seq<Gap>)
    requires j <= |s| && |xs| >= 1 && |gaps| == |xs| - 1 && BareAddress(xs[0])
    requires s[j..] == JoinAddresses(xs, gaps)
    ensures j < |s| && !IsWhiteSpace(s[j])
  {
    JoinedStartsBare(xs, gaps);
    assert s[j] == s[j..][0];
  }

  /** Text from `i` that runs without a comma to `k`, then white space to
      the comma at `c`, then white space to `j`, where something other than
      white space starts: the first comma from `i` on is at `c`, the piece
      before it ends at `k`, and the next piece starts at `j`. */
  lemma RunEnds(s: string, i: nat, k: nat, c: nat, j: nat)
    requires i < k <= c < j < |s|
    requires NoCommaBetween(s, i, k) && !IsWhiteSpace(s[k - 1]) && WhiteSpaceBetween(s, k, c)
    requires s[c] == ',' && WhiteSpaceBetween(s, c + 1, j) && !IsWhiteSpace(s[j])
    ensures CommaFrom(s, i) == Some(c)
    ensures BackOverWhiteSpace(s, i, c) == k && SkipWhiteSpace(s, c + 1) == j
  {
    assert NoCommaBetween(s, i, c);
    CommaFromAt(s, i, c);
    BackOverRun(s, i, k, c);
    SkipOverRun(s, c + 1, j);
  }

  /** A bare address at `i` followed by a blank separator, with the next
      address starting at `j`, is text of that shape. */
  lemma SeparatorEnds(s: string, i: nat, x: string, g: Gap, j: nat) returns (c: nat)
    requires BareAddress(x) && BlankGap(g)
    requires j == i + |x| + |Separator(g)| && j < |s| && !IsWhiteSpace(s[j])
    requires s[i..i + |x|] == x && s[i + |x|..j] == Separator(g)
    ensures CommaFrom(s, i) == Some(c)
    ensures BackOverWhiteSpace(s, i, c) == i + |x| && SkipWhiteSpace(s, c + 1) == j
  {
    c := i + |x| + |g.before|;
    BareAt(s, i, x);
    SeparatorAt(s, i + |x|, g);
    RunEnds(s, i, i + |x|, c, j);
  }

  /** So the split of such text yields the address, then goes on at `j`. */
  lemma SplitAtSeparator(s: string, i: nat, x: string, g: Gap, j: nat)
    requires BareAddress(x) && BlankGap(g)
    requires j == i + |x| + |Separator(g)| && j < |s| && !IsWhiteSpace(s[j])
    requires s[i..i + |x|] == x && s[i + |x|..j] == Separator(g)
    ensures SplitFrom(s, i) == [x] + SplitFrom(s, j)
  {
    var c := SeparatorEnds(s, i, x, g, j);
    SplitFromStepAt(s, i, c, i + |x|, j);
  }

  /** One step of splitting a written list: the first address comes out
      whole, and the split goes on where the rest of the list starts. */
  lemma SplitJoinedStep(s: string, i: nat, xs: seq<string>, gaps: seq<Gap>) returns (j: nat)
    requires i <= |s| && |xs| >= 2 && |gaps| == |xs| - 1
    requires BareAddress(xs[0]) && BareAddress(xs[1]) && BlankGap(gaps[0])
    requires s[i..] == JoinAddresses(xs, gaps)
    ensures j <= |s| && s[j..] == JoinAddresses(xs[1..], gaps[1..])
    ensures SplitFrom(s, i) == [xs[0]] + SplitFrom(s, j)
  {
    var c;
    c, j := JoinLayout(s, i, xs, gaps);
    NextAddressAt(s, j, xs[1..], gaps[1..]);
    SplitAtSeparator(s, i, xs[0], gaps[0], j);
  }

  lemma HeadAndRest(xs: seq<string>)
    requires |xs| >= 1
    ensures [xs[0]] + xs[1..] == xs
  {
  }

  /** Splitting text that holds bare addresses written with blank
      separators (", ", " , ", ",\n\t" and so on) gives the addresses back. */
  lemma {:induction false} SplitJoinedFrom(s: string, i: nat, xs: seq<string>, gaps: seq<Gap>)
    requires i <= |s| && |xs| >= 1 && |gaps| == |xs| - 1
    requires forall k | 0 <= k < |xs| :: BareAddress(xs[k])
    requires forall k | 0 <= k < |gaps| :: BlankGap(gaps[k])
    requires s[i..] == JoinAddresses(xs, gaps)
    ensures SplitFrom(s, i) == xs
    decreases |xs|
  {
    if |xs| == 1 {
      Occurs(s, i, xs[0], []);
      BareAt(s, i, xs[0]);
      assert CommaFrom(s, i).None?;
    } else {
      var j := SplitJoinedStep(s, i, xs, gaps);
      var rest := xs[1..];
      var more := gaps[1..];
      assert forall k | 0 <= k < |rest| :: BareAddress(rest[k]) by {
        assert forall k | 0 <= k < |rest| :: rest[k] == xs[k + 1];
      }
      assert forall k | 0 <= k < |more| :: BlankGap(more[k]) by {
        assert forall k | 0 <= k < |more| :: more[k] == gaps[k + 1];
      }
      SplitJoinedFrom(s, j, rest, more);
      HeadAndRest(xs);
    }
  }

  /** Splitting a written list of bare addresses gives the addresses back. */
  lemma SplitJoinedAddresses(xs: seq<string>, gaps: seq<Gap>)
    requires |xs| >= 1 && |gaps| == |xs| - 1
    requires forall k | 0 <= k < |xs| :: BareAddress(xs[k])
    requires forall k | 0 <= k < |gaps| :: BlankGap(gaps[k])
    ensures SplitAddressList(JoinAddresses(xs, gaps)) == xs
  {
    var s := JoinAddresses(xs, gaps);
    assert s[0..] == s;
    SplitJoinedFrom(s, 0, xs, gaps);
  }

  /** Every separator is blank. */
  predicate BlankGaps(gaps: seq<Gap>) {
    forall k | 0 <= k < |gaps| :: BlankGap(gaps[k])
  }

  /** What the split removes around a comma, the white space before it
      from `k` and after it up to `j`, is a blank separator. */
  lemma RemovedGapIsBlank(s: string, i: nat, c: nat, k: nat, j: nat)
    requires i <= c < |s|
    requires k == BackOverWhiteSpace(s, i, c) && j == SkipWhiteSpace(s, c + 1)
    ensures BlankGap(Gap(s[k..c], s[c + 1..j]))
  {
    SteppedBackIsWhiteSpace(s, i, c);
    SkippedIsWhiteSpace(s, c + 1);
    assert forall m | 0 <= m < c - k :: s[k..c][m] == s[k + m];
    var a := c + 1;
    assert forall m | 0 <= m < j - a :: s[a..j][m] == s[a + m];
  }

  /** Text cut around the comma at `c`: the piece up to `k`, the separator,
      and the rest from `j`. */
  lemma CutAtGap(s: string, i: nat, k: nat, c: nat, j: nat)
    requires i <= k <= c < j <= |s| && s[c] == ','
    ensures s[i..] == s[i..k] + (Separator(Gap(s[k..c], s[c + 1..j])) + s[j..])
  {
    assert s[k..j] == s[k..c] + "," + s[c + 1..j] by {
      assert s[k..j] == s[k..c] + s[c..j];
      assert s[c..j] == [s[c]] + s[c + 1..j];
    }
    assert s[i..] == s[i..k] + (s[k..j] + s[j..]) by {
      assert s[k..] == s[k..j] + s[j..];
      assert s[i..] == s[i..k] + s[k..];
    }
  }

  lemma JoinCons(p: string, q: seq<string>, g: Gap, gs: seq<Gap>)
    requires |q| >= 1 && |gs| == |q| - 1
    ensures JoinAddresses([p] + q, [g] + gs) == p + (Separator(g) + JoinAddresses(q, gs))
  {
    assert ([p] + q)[1..] == q;
    assert ([g] + gs)[1..] == gs;
  }

  lemma BlankGapsCons(g: Gap, gs: seq<Gap>)
    requires BlankGap(g) && BlankGaps(gs)
    ensures BlankGaps([g] + gs)
  {
    forall m | 0 <= m < |[g] + gs|
      ensures BlankGap(([g] + gs)[m])
    {
      if m > 0 {
        assert ([g] + gs)[m] == gs[m - 1];
      }
    }
  }

  /** One step of rejoining: the separators that rebuild the text from `j`
      extend, by the one the split removed around the comma at `c`, to
      separators that rebuild the text from `i`. */
  lemma RejoinStep(s: string, i: nat, c: nat, k: nat, j: nat, gs: seq<Gap>) returns (gaps: seq<Gap>)
    requires i <= |s| && CommaFrom(s, i) == Some(c)
    requires k == BackOverWhiteSpace(s, i, c) && j == SkipWhiteSpace(s, c + 1)
    requires Rebuilds(s, j, gs)
    ensures Rebuilds(s, i, gaps)
  {
    var g := Gap(s[k..c], s[c + 1..j]);
    gaps := [g] + gs;
    SplitFromStepAt(s, i, c, k, j);
    RemovedGapIsBlank(s, i, c, k, j);
    BlankGapsCons(g, gs);
    JoinCons(s[i..k], SplitFrom(s, j), g, gs);
    CutAtGap(s, i, k, c, j);
  }

  /** The pieces of the split of `s[i..]`, with the blank separators `gaps`
      between them, rebuild `s[i..]` exactly. */
  predicate Rebuilds(s: string, i: nat, gaps: seq<Gap>)
    requires i <= |s|
  {
    && |gaps| == |SplitFrom(s, i)| - 1
    && BlankGaps(gaps)
    && JoinAddresses(SplitFrom(s, i), gaps) == s[i..]
  }

  /** Without a comma left, the one piece is the text itself. */
  lemma RejoinLast(s: string, i: nat) returns (gaps: seq<Gap>)
    requires i <= |s| && CommaFrom(s, i).None?
    ensures Rebuilds(s, i, gaps)
  {
    gaps := [];
    assert SplitFrom(s, i) == [s[i..]];
  }

  /** The split loses nothing but separators: for any text, there are
      blank separators, one between each two pieces, with which the pieces
      rebuild the text exactly. */
  lemma {:induction false} SplitRejoins(s: string, i: nat) returns (gaps: seq<Gap>)
    requires i <= |s|
    ensures Rebuilds(s, i, gaps)
    decreases |s| - i
  {
    var c := CommaFrom(s, i);
    if c.None? {
      gaps := RejoinLast(s, i);
    } else {
      var k := BackOverWhiteSpace(s, i, c.value);
      var j := SkipWhiteSpace(s, c.value + 1);
      var gs := SplitRejoins(s, j);
      gaps := RejoinStep(s, i, c.value, k, j, gs);
    }
  }

  /** No piece but the first starts with white space, and no piece but the
      last ends with it. */
  predicate InnerEdgesBare(r: seq<string>) {
    && (forall m | 0 < m < |r| :: r[m] == [] || !IsWhiteSpace(r[m][0]))
    && (forall m | 0 <= m < |r| - 1 :: r[m] == [] || !IsWhiteSpace(r[m][|r[m]| - 1]))
  }

  lemma InnerEdgesCons(p: string, q: seq<string>)
    requires |q| >= 1 && InnerEdgesBare(q)
    requires p == [] || !IsWhiteSpace(p[|p| - 1])
    requires q[0] == [] || !IsWhiteSpace(q[0][0])
    ensures InnerEdgesBare([p] + q)
  {
    var r := [p] + q;
    forall m | 0 < m < |r|
      ensures r[m] == [] || !IsWhiteSpace(r[m][0])
    {
      assert r[m] == q[m - 1];
    }
    forall m | 0 <= m < |r| - 1
      ensures r[m] == [] || !IsWhiteSpace(r[m][|r[m]| - 1])
    {
      if m > 0 {
        assert r[m] == q[m - 1];
      }
    }
  }

  /** The split from a character that is not white space starts its first
      piece with that character (or gives an empty first piece). */
  lemma FirstPieceStartsBare(s: string, j: nat)
    requires j <= |s| && (j == |s| || !IsWhiteSpace(s[j]))
    ensures SplitFrom(s, j)[0] == [] || !IsWhiteSpace(SplitFrom(s, j)[0][0])
  {
    SplitFirstIsPrefix(s, j);
    var p := SplitFrom(s, j)[0];
    if p != [] {
      assert p[0] == s[j..][0] == s[j];
    }
  }

  /** One step of the split keeps the inner edges of the pieces bare. */
  lemma InnerEdgesStep(s: string, i: nat, c: nat, k: nat, j: nat)
    requires i <= |s| && CommaFrom(s, i) == Some(c)
    requires k == BackOverWhiteSpace(s, i, c) && j == SkipWhiteSpace(s, c + 1)
    requires InnerEdgesBare(SplitFrom(s, j))
    ensures InnerEdgesBare(SplitFrom(s, i))
  {
    SplitFromStepAt(s, i, c, k, j);
    FirstPieceStartsBare(s, j);
    PieceEndsBare(s, i, c, k);
    InnerEdgesCons(s[i..k], SplitFrom(s, j));
  }

  /** The piece before a comma does not end with white space. */
  lemma PieceEndsBare(s: string, i: nat, c: nat, k: nat)
    requires i <= c <= |s| && k == BackOverWhiteSpace(s, i, c)
    ensures s[i..k] == [] || !IsWhiteSpace(s[i..k][k - i - 1])
  {
    if k > i {
      assert s[i..k][k - i - 1] == s[k - 1];
    }
  }

  /** The split removes all the white space around each comma: no address
      but the first starts with white space, and none but the last ends
      with it. */
  lemma {:induction false} SplitInnerEdgesBare(s: string, i: nat)
    requires i <= |s|
    ensures InnerEdgesBare(SplitFrom(s, i))
    decreases |s| - i
  {
    var c := CommaFrom(s, i);
    if c.Some? {
      var k := BackOverWhiteSpace(s, i, c.value);
      var j := SkipWhiteSpace(s, c.value + 1);
      SplitInnerEdgesBare(s, j);
      InnerEdgesStep(s, i, c.value, k, j);
    }
  }
}
