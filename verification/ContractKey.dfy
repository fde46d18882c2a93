/**
 Contract keys: five parts joined by bars. Only the bar structure matters here; how a strike prints
 is left open.
 */
module ContractKey {
  /** `SYMBOL|SEC|||` for any row that is not an option. */
  function StkKey(symbol: string, secType: string): string {
    symbol + "|" + secType + "|||"
  }

  /** `SYMBOL|OPT|EXPIRY|STRIKE|RIGHT`. */
  function OptKey(symbol: string, expiry: string, strikeText: string, right: string): string {
    symbol + "|OPT|" + expiry + "|" + strikeText + "|" + right
  }

  predicate BarFree(s: string) {
    forall i :: 0 <= i < |s| ==> s[i] != '|'
  }

  /** The first two parts of `key` are `symbol` and `secType`. */
  ghost predicate KeyNames(key: string, symbol: string, secType: string) {
    BarFree(symbol) && BarFree(secType) && symbol + "|" + secType + "|" <= key
  }

  lemma StkKeyNames(symbol: string, secType: string)
    requires BarFree(symbol) && BarFree(secType)
    ensures KeyNames(StkKey(symbol, secType), symbol, secType)
  {
    assert StkKey(symbol, secType) == symbol + "|" + secType + "|" + "||";
  }

  lemma OptKeyNames(symbol: string, expiry: string, strikeText: string, right: string)
    requires BarFree(symbol)
    ensures KeyNames(OptKey(symbol, expiry, strikeText, right), symbol, "OPT")
  {
    assert OptKey(symbol, expiry, strikeText, right) == symbol + "|" + "OPT" + "|" + (expiry + "|" + strikeText + "|" + right);
  }

  lemma FirstPart(key: string, a: string, b: string)
    requires BarFree(a) && BarFree(b) && a + "|" <= key && b + "|" <= key
    ensures a == b
  {
    assert (a + "|")[|a|] == '|' && (b + "|")[|b|] == '|';
    assert key[|a|] == '|' && key[|b|] == '|';
    assert a == key[..|a|] && b == key[..|b|];
  }

  /** A key names one symbol and one security type. */
  lemma KeyNamesOne(key: string, s: string, t: string, s': string, t': string)
    requires KeyNames(key, s, t) && KeyNames(key, s', t')
    ensures s == s' && t == t'
  {
    assert s + "|" <= s + "|" + t + "|" <= key;
    assert s' + "|" <= s' + "|" + t' + "|" <= key;
    FirstPart(key, s, s');
    var rest := key[|s| + 1..];
    assert key == s + "|" + rest;
    assert t + "|" <= rest && t' + "|" <= rest by {
      assert s + "|" + t + "|" == s + "|" + (t + "|");
      assert s + "|" + t' + "|" == s + "|" + (t' + "|");
    }
    FirstPart(rest, t, t');
  }

  function Bars(s: string): nat {
    if s == "" then 0 else Bars(s[1..]) + if s[0] == '|' then 1 else 0
  }

  lemma {:induction false} BarsOf(s: string, t: string)
    ensures Bars(s + t) == Bars(s) + Bars(t)
  {
    if s == "" {
      assert s + t == t;
    } else {
      BarsOf(s[1..], t);
      assert (s + t)[1..] == s[1..] + t;
    }
  }

  lemma {:induction false} BarFreeHasNone(s: string)
    requires BarFree(s)
    ensures Bars(s) == 0
  {
    if s != "" {
      BarFreeHasNone(s[1..]);
    }
  }

  /** A key of bar-free parts has four bars, five parts. */
  lemma StkKeyBars(symbol: string, secType: string)
    requires BarFree(symbol) && BarFree(secType)
    ensures Bars(StkKey(symbol, secType)) == 4
  {
    BarFreeHasNone(symbol);
    BarFreeHasNone(secType);
    BarsOf(symbol, "|");
    BarsOf(symbol + "|", secType);
    BarsOf(symbol + "|" + secType, "|||");
    assert Bars("|") == 1 && "|||"[1..] == "||" && "||"[1..] == "|" && Bars("|||") == 3;
  }

  lemma Cut(a: string, x: string, b: string, y: string)
    requires BarFree(a) && BarFree(b) && a + "|" + x == b + "|" + y
    ensures a == b && x == y
  {
    var key := a + "|" + x;
    assert key == a + ("|" + x) && key == b + ("|" + y);
    assert a + "|" <= key && b + "|" <= key;
    FirstPart(key, a, b);
    assert x == key[|a| + 1..] && y == key[|b| + 1..];
  }

  /** Option keys of bar-free parts are equal exactly when their parts are. */
  lemma OptKeysEqualIff(s: string, e: string, k: string, r: string, s': string, e': string, k': string, r': string)
    requires BarFree(s) && BarFree(e) && BarFree(k) && BarFree(s') && BarFree(e') && BarFree(k')
    ensures OptKey(s, e, k, r) == OptKey(s', e', k', r') <==> s == s' && e == e' && k == k' && r == r'
  {
    if OptKey(s, e, k, r) == OptKey(s', e', k', r') {
      Parts(s, e, k, r);
      Parts(s', e', k', r');
      var rest, rest' := "OPT|" + (e + "|" + (k + "|" + r)), "OPT|" + (e' + "|" + (k' + "|" + r'));
      Cut(s, rest, s', rest');
      assert rest[4..] == e + "|" + (k + "|" + r) && rest'[4..] == e' + "|" + (k' + "|" + r');
      Cut(e, k + "|" + r, e', k' + "|" + r');
      Cut(k, r, k', r');
    }
  }

  lemma Parts(s: string, e: string, k: string, r: string)
    ensures OptKey(s, e, k, r) == s + "|" + ("OPT|" + (e + "|" + (k + "|" + r)))
  {
  }

  /** So are the keys of other rows; and no such key is an option's. */
  lemma StkKeysEqualIff(s: string, t: string, s': string, t': string)
    requires BarFree(s) && BarFree(t) && BarFree(s') && BarFree(t')
    ensures StkKey(s, t) == StkKey(s', t') <==> s == s' && t == t'
  {
    if StkKey(s, t) == StkKey(s', t') {
      StkKeyNames(s, t);
      StkKeyNames(s', t');
      KeyNamesOne(StkKey(s, t), s, t, s', t');
    }
  }

  lemma StkIsNotOpt(s: string, t: string, s': string, e: string, k: string, r: string)
    requires BarFree(s) && BarFree(t) && BarFree(s') && t != "OPT"
    ensures StkKey(s, t) != OptKey(s', e, k, r)
  {
    StkKeyNames(s, t);
    OptKeyNames(s', e, k, r);
    if StkKey(s, t) == OptKey(s', e, k, r) {
      KeyNamesOne(StkKey(s, t), s, t, s', "OPT");
    }
  }

  /** With bars inside the parts a key no longer names one symbol. */
  lemma BarsCollide(symbol: string, expiry: string, strikeText: string, right: string)
    ensures OptKey(symbol + "|OPT", expiry, strikeText, right) == OptKey(symbol, "OPT|" + expiry, strikeText, right)
  {
  }
}
