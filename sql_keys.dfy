/**
 * The column names of the subscribers table, read from its `CREATE TABLE`
 * script by `_get_keys` in bot/database_manager.py: after the first line
 * that is `(` once stripped, the first whitespace-separated word of each
 * line is a column name, up to the line that is `)`. `get_subscribers`
 * pairs these names with the values of each fetched row.
 */
module SqlKeys {
  import opened Wrappers

  /** Python's `str.isspace`, which `strip` and `split` use to find whitespace. */
  predicate IsSpace(c: char)
  {
    || ('\t' <= c <= '\r') || ('\U{1c}' <= c <= '\U{20}') || c == '\U{85}' || c == '\U{a0}'
    || c == '\U{1680}' || ('\U{2000}' <= c <= '\U{200a}') || c == '\U{2028}' || c == '\U{2029}'
    || c == '\U{202f}' || c == '\U{205f}' || c == '\U{3000}'
  }

  predicate AllSpace(s: string)
  {
    forall i :: 0 <= i < |s| ==> IsSpace(s[i])
  }

  predicate NoSpace(s: string)
  {
    forall i :: 0 <= i < |s| ==> !IsSpace(s[i])
  }

  function TrimStart(s: string): string
  {
    if s != [] && IsSpace(s[0]) then TrimStart(s[1..]) else s
  }

  function TrimEnd(s: string): string
  {
    if s != [] && IsSpace(s[|s| - 1]) then TrimEnd(s[..|s| - 1]) else s
  }

  /** `str.strip()`: the line without leading and trailing whitespace. */
  function Strip(s: string): string
  {
    TrimEnd(TrimStart(s))
  }

  /** The longest prefix without whitespace. */
  function Word(s: string): string
  {
    if s == [] || IsSpace(s[0]) then [] else [s[0]] + Word(s[1..])
  }

  /** `line.split(maxsplit=1)[0]`: the first word, or `None` (an `IndexError`) on a blank line. */
  function FirstToken(line: string): Option<string>
  {
    var rest := TrimStart(line);
    if rest == [] then None else Some(Word(rest))
  }

  /** The index after the first line that strips to `(`, or the number of lines. */
  function StartIndex(lines: seq<string>): nat
  {
    if lines == [] then 0
    else if Strip(lines[0]) == "(" then 1
    else 1 + StartIndex(lines[1..])
  }

  /** The first words of the lines up to the first `)` line; `None` when one of them is blank. */
  function CollectKeys(block: seq<string>): Option<seq<string>>
  {
    if block == [] || Strip(block[0]) == ")" then Some([])
    else
      match FirstToken(block[0])
      case None => None
      case Some(key) =>
        match CollectKeys(block[1..])
        case None => None
        case Some(keys) => Some([key] + keys)
  }

  /** The keys `_get_keys` returns for a script of `lines`. */
  function KeysOf(lines: seq<string>): Option<seq<string>>
  {
    var start := StartIndex(lines);
    assert start <= |lines| by {
      StartIndexBound(lines);
    }
    CollectKeys(lines[start..])
  }

  function Prepend(done: seq<string>, rest: Option<seq<string>>): Option<seq<string>>
  {
    match rest
    case None => None
    case Some(keys) => Some(done + keys)
  }

  lemma PrependEmpty(rest: Option<seq<string>>)
    ensures Prepend([], rest) == rest
  {
    if rest.Some? {
      assert [] + rest.value == rest.value;
    }
  }

  lemma PrependStep(done: seq<string>, key: string, rest: Option<seq<string>>)
    ensures Prepend(done, match rest { case None => None case Some(keys) => Some([key] + keys) })
      == Prepend(done + [key], rest)
  {
    if rest.Some? {
      assert done + ([key] + rest.value) == done + [key] + rest.value;
    }
  }

  lemma StartStep(lines: seq<string>, n: int)
    requires 0 <= n < |lines|
    ensures StartIndex(lines[n..])
      == if Strip(lines[n]) == "(" then 1 else 1 + StartIndex(lines[n + 1..])
  {
    assert lines[n..][0] == lines[n] && lines[n..][1..] == lines[n + 1..];
  }

  lemma CollectStep(lines: seq<string>, j: int)
    requires 0 <= j < |lines|
    ensures Strip(lines[j]) == ")" ==> CollectKeys(lines[j..]) == Some([])
    ensures Strip(lines[j]) != ")" && FirstToken(lines[j]).None? ==> CollectKeys(lines[j..]) == None
  {
    assert lines[j..][0] == lines[j];
  }

  /** One more key collected: the pending result moves from line `j` to line `j + 1`. */
  lemma CollectAdvance(lines: seq<string>, j: int, found: seq<string>)
    requires 0 <= j < |lines| && Strip(lines[j]) != ")" && FirstToken(lines[j]).Some?
    ensures Prepend(found, CollectKeys(lines[j..]))
      == Prepend(found + [FirstToken(lines[j]).value], CollectKeys(lines[j + 1..]))
  {
    assert lines[j..][0] == lines[j] && lines[j..][1..] == lines[j + 1..];
    PrependStep(found, FirstToken(lines[j]).value, CollectKeys(lines[j + 1..]));
  }

  /** `_get_keys` on the lines of the script. */
  method GetKeys(lines: seq<string>) returns (keys: Option<seq<string>>)
    ensures keys == KeysOf(lines)
  {
    var index := 0;
    for n := 0 to |lines|
      invariant index == n
      invariant StartIndex(lines) == n + StartIndex(lines[n..])
    {
      StartStep(lines, n);
      index := index + 1;
      if Strip(lines[n]) == "(" {
        break;
      }
    }
    StartIndexBound(lines);
    assert index == StartIndex(lines);
    keys := CollectFrom(lines, index);
  }

  /** The second loop of `_get_keys`: collects first words from line `start` on. */
  method CollectFrom(lines: seq<string>, start: nat) returns (keys: Option<seq<string>>)
    requires start <= |lines|
    ensures keys == CollectKeys(lines[start..])
  {
    var found: seq<string> := [];
    PrependEmpty(CollectKeys(lines[start..]));
    var j := start;
    while j < |lines|
      invariant start <= j <= |lines|
      invariant CollectKeys(lines[start..]) == Prepend(found, CollectKeys(lines[j..]))
    {
      var line := lines[j];
      CollectStep(lines, j);
      if Strip(line) == ")" {
        assert found + [] == found;
        return Some(found);
      }
      var key := FirstToken(line);
      if key.None? {
        return None;
      }
      CollectAdvance(lines, j, found);
      found := found + [key.value];
      j := j + 1;
    }
    assert CollectKeys(lines[j..]) == Some([]);
    assert found + [] == found;
    keys := Some(found);
  }

  // ---------------------------------------------------------------------------
  // Where collection starts

  lemma {:induction false} StartIndexBound(lines: seq<string>)
    ensures StartIndex(lines) <= |lines|
  {
    if lines != [] {
      StartIndexBound(lines[1..]);
    }
  }

  /**
   * Collection starts right after the first line that strips to `(`; when
   * there is none it starts past the end.
   */
  lemma {:induction false} StartAfterOpen(lines: seq<string>)
    ensures StartIndex(lines) <= |lines|
    ensures forall i :: 0 <= i < StartIndex(lines) - 1 ==> Strip(lines[i]) != "("
    ensures StartIndex(lines) < |lines| || (StartIndex(lines) == |lines| && lines != [] && Strip(lines[|lines| - 1]) == "(")
      || forall i :: 0 <= i < |lines| ==> Strip(lines[i]) != "("
    ensures 0 < StartIndex(lines) < |lines| ==> Strip(lines[StartIndex(lines) - 1]) == "("
  {
    if lines != [] && Strip(lines[0]) != "(" {
      StartAfterOpen(lines[1..]);
      var tail := lines[1..];
      assert forall i :: 0 < i < |lines| ==> lines[i] == tail[i - 1];
    }
  }

  /** A script without a `(` line has no keys. */
  lemma NoOpenParen(lines: seq<string>)
    requires forall i :: 0 <= i < |lines| ==> Strip(lines[i]) != "("
    ensures StartIndex(lines) == |lines|
    ensures KeysOf(lines) == Some([])
  {
    StartAfterOpen(lines);
  }

  // ---------------------------------------------------------------------------
  // What is collected

  /**
   * On success the keys are the first words of the leading non-`)` lines of the
   * block, in order, and collection stopped at the end or at a `)` line.
   */
  lemma CollectedKeys(block: seq<string>)
    ensures CollectKeys(block).Some? ==>
      var keys := CollectKeys(block).value;
      |keys| <= |block|
      && (forall i :: 0 <= i < |keys| ==> Strip(block[i]) != ")" && FirstToken(block[i]) == Some(keys[i]))
      && (|keys| == |block| || Strip(block[|keys|]) == ")")
  {
    CollectedWords(block);
    CollectedStop(block);
  }

  /** The keys are the first words of the leading lines, none of them `)`. */
  lemma {:induction false} CollectedWords(block: seq<string>)
    ensures CollectKeys(block).Some? ==>
      var keys := CollectKeys(block).value;
      |keys| <= |block|
      && (forall i :: 0 <= i < |keys| ==> Strip(block[i]) != ")" && FirstToken(block[i]) == Some(keys[i]))
  {
    if block != [] && Strip(block[0]) != ")" && CollectKeys(block).Some? {
      var tail := block[1..];
      CollectedWords(tail);
      assert FirstToken(block[0]).Some? && CollectKeys(tail).Some?;
      var keys := CollectKeys(block).value;
      var rest := CollectKeys(tail).value;
      assert keys == [FirstToken(block[0]).value] + rest;
      forall i | 0 <= i < |keys|
        ensures Strip(block[i]) != ")" && FirstToken(block[i]) == Some(keys[i])
      {
        if i > 0 {
          assert block[i] == tail[i - 1] && keys[i] == rest[i - 1];
        }
      }
    }
  }

  /** Collection stops at the end of the block or at a `)` line. */
  lemma {:induction false} CollectedStop(block: seq<string>)
    ensures CollectKeys(block).Some? ==>
      |CollectKeys(block).value| <= |block|
      && (|CollectKeys(block).value| == |block| || Strip(block[|CollectKeys(block).value|]) == ")")
  {
    if block != [] && Strip(block[0]) != ")" && CollectKeys(block).Some? {
      var tail := block[1..];
      CollectedStop(tail);
      var keys := CollectKeys(block).value;
      var rest := CollectKeys(tail).value;
      assert |keys| == 1 + |rest|;
      if |keys| < |block| {
        assert block[|keys|] == tail[|rest|];
      }
    }
  }

  /** A line before the first `)` line of the block is blank. */
  predicate BlankBeforeClose(block: seq<string>)
  {
    block != [] && Strip(block[0]) != ")" && (FirstToken(block[0]).None? || BlankBeforeClose(block[1..]))
  }

  /** Collection fails exactly when a line before the first `)` line is blank. */
  lemma {:induction false} CollectFails(block: seq<string>)
    ensures CollectKeys(block).None? <==> BlankBeforeClose(block)
  {
    if block != [] && Strip(block[0]) != ")" {
      CollectFails(block[1..]);
    }
  }

  /** A failed collection names the blank line: one before any `)` line. */
  lemma {:induction false} BlankLineOf(block: seq<string>) returns (i: int)
    requires CollectKeys(block).None?
    ensures 0 <= i < |block| && FirstToken(block[i]).None?
    ensures forall j :: 0 <= j <= i ==> Strip(block[j]) != ")"
  {
    CollectFails(block);
    if FirstToken(block[0]).None? {
      i := 0;
    } else {
      var tail := block[1..];
      CollectFails(tail);
      var k := BlankLineOf(tail);
      i := k + 1;
      assert forall j :: 0 < j <= i ==> block[j] == tail[j - 1];
    }
  }

  /** A blank line before any `)` line makes the collection fail. */
  lemma {:induction false} BlankLineFails(block: seq<string>, i: int)
    requires 0 <= i < |block| && FirstToken(block[i]).None?
    requires forall j :: 0 <= j <= i ==> Strip(block[j]) != ")"
    ensures CollectKeys(block).None?
  {
    CollectFails(block);
    if i > 0 {
      var tail := block[1..];
      assert forall j :: 0 <= j <= i - 1 ==> tail[j] == block[j + 1];
      BlankLineFails(tail, i - 1);
      CollectFails(tail);
    }
  }

  /** Nothing after the first `)` line matters. */
  lemma {:induction false} StopsAtClose(block: seq<string>, c: int)
    requires 0 <= c < |block| && Strip(block[c]) == ")"
    requires forall j :: 0 <= j < c ==> Strip(block[j]) != ")"
    ensures CollectKeys(block) == CollectKeys(block[..c])
  {
    if c > 0 {
      StopsAtClose(block[1..], c - 1);
      assert block[..c][1..] == block[1..][..c - 1];
    }
  }

  /** Without a `)` line, every line of the block gives one key, in order. */
  lemma NoCloseParen(block: seq<string>)
    requires forall i :: 0 <= i < |block| ==> Strip(block[i]) != ")"
    requires forall i :: 0 <= i < |block| ==> FirstToken(block[i]).Some?
    ensures CollectKeys(block).Some?
    ensures |CollectKeys(block).value| == |block|
    ensures forall i :: 0 <= i < |block| ==> CollectKeys(block).value[i] == FirstToken(block[i]).value
  {
    CollectedKeys(block);
  }

  /** A script has at most as many keys as it has lines after the `(` line. */
  lemma KeysBound(lines: seq<string>)
    requires KeysOf(lines).Some?
    ensures StartIndex(lines) <= |lines|
    ensures |KeysOf(lines).value| <= |lines| - StartIndex(lines)
  {
    StartIndexBound(lines);
    CollectedKeys(lines[StartIndex(lines)..]);
  }

  // ---------------------------------------------------------------------------
  // Words

  /** The whitespace `TrimStart` removes. */
  lemma {:induction false} TrimStartShape(s: string) returns (pre: string)
    ensures AllSpace(pre) && s == pre + TrimStart(s)
    ensures TrimStart(s) == [] || !IsSpace(TrimStart(s)[0])
  {
    if s != [] && IsSpace(s[0]) {
      var p := TrimStartShape(s[1..]);
      pre := [s[0]] + p;
      assert s == [s[0]] + s[1..];
    } else {
      pre := [];
      assert s == [] + s;
    }
  }

  /** What follows the first word. */
  lemma {:induction false} WordShape(s: string) returns (rest: string)
    ensures NoSpace(Word(s))
    ensures s == Word(s) + rest && (rest == [] || IsSpace(rest[0]))
    ensures s != [] && !IsSpace(s[0]) ==> Word(s) != []
  {
    if s != [] && !IsSpace(s[0]) {
      var tail := s[1..];
      rest := WordShape(tail);
      var w := Word(tail);
      assert Word(s) == [s[0]] + w;
      assert s == [s[0]] + tail;
      forall i | 0 <= i < |w| + 1
        ensures !IsSpace(([s[0]] + w)[i])
      {
        if i > 0 {
          assert ([s[0]] + w)[i] == w[i - 1];
        }
      }
    } else {
      rest := s;
      assert s == [] + s;
    }
  }

  /**
   * The first word of a line is its first maximal run of non-whitespace: a
   * non-empty word after leading whitespace and before whitespace or the end
   * of the line. There is none exactly when the line is blank.
   */
  lemma FirstTokenShape(line: string) returns (pre: string, rest: string)
    ensures FirstToken(line).None? <==> AllSpace(line)
    ensures FirstToken(line).Some? ==> FirstToken(line).value != [] && NoSpace(FirstToken(line).value)
    ensures FirstToken(line).Some? ==>
      AllSpace(pre) && (rest == [] || IsSpace(rest[0])) && line == pre + FirstToken(line).value + rest
  {
    pre := TrimStartShape(line);
    var t := TrimStart(line);
    rest := [];
    if t == [] {
      assert line == pre;
    } else {
      rest := WordShape(t);
      assert line == pre + Word(t) + rest;
      assert !AllSpace(line) by {
        assert line[|pre|] == t[0];
      }
      assert FirstToken(line) == Some(Word(t));
    }
  }

  // ---------------------------------------------------------------------------
  // Rows as dictionaries

  function Min(a: int, b: int): int
  {
    if a <= b then a else b
  }

  /** `dict(zip(keys, values))`: pairs up to the shorter length; a repeated key keeps its last value. */
  function Zip<V>(keys: seq<string>, values: seq<V>): map<string, V>
  {
    if keys == [] || values == [] then map[]
    else
      var later := Zip(keys[1..], values[1..]);
      if keys[0] in later then later else later[keys[0] := values[0]]
  }

  /**
   * A key is in a row's dictionary exactly when it is among the first
   * `min(len(keys), len(values))` keys, and its value is the one paired with
   * its last occurrence there.
   */
  lemma ZipLookup<V>(keys: seq<string>, values: seq<V>, k: string)
    ensures k in Zip(keys, values) <==> exists i :: 0 <= i < Min(|keys|, |values|) && keys[i] == k
    ensures k in Zip(keys, values) ==>
      exists i :: 0 <= i < Min(|keys|, |values|) && keys[i] == k && Zip(keys, values)[k] == values[i]
        && forall j :: i < j < Min(|keys|, |values|) ==> keys[j] != k
  {
    ZipKeys(keys, values, k);
    if k in Zip(keys, values) {
      var i := ZipLast(keys, values, k);
    }
  }

  /** The keys of a row's dictionary are the first `min(len(keys), len(values))` keys. */
  lemma {:induction false} ZipKeys<V>(keys: seq<string>, values: seq<V>, k: string)
    ensures k in Zip(keys, values) <==> exists i :: 0 <= i < Min(|keys|, |values|) && keys[i] == k
  {
    if keys != [] && values != [] {
      var ks, vs := keys[1..], values[1..];
      var n := Min(|keys|, |values|);
      assert Min(|ks|, |vs|) == n - 1;
      ZipKeys(ks, vs, k);
      assert k in Zip(keys, values) <==> k == keys[0] || k in Zip(ks, vs);
      if exists i :: 0 <= i < n && keys[i] == k {
        var i :| 0 <= i < n && keys[i] == k;
        if i > 0 {
          assert ks[i - 1] == k;
        }
      }
      if k in Zip(ks, vs) {
        var i :| 0 <= i < n - 1 && ks[i] == k;
        assert keys[i + 1] == k;
      }
    }
  }

  /** A key's value is the one paired with its last occurrence among the paired keys. */
  lemma {:induction false} ZipLast<V>(keys: seq<string>, values: seq<V>, k: string) returns (i: int)
    requires k in Zip(keys, values)
    ensures 0 <= i < Min(|keys|, |values|) && keys[i] == k && Zip(keys, values)[k] == values[i]
    ensures forall j :: i < j < Min(|keys|, |values|) ==> keys[j] != k
  {
    var ks, vs := keys[1..], values[1..];
    var n := Min(|keys|, |values|);
    assert Min(|ks|, |vs|) == n - 1;
    var later := Zip(ks, vs);
    if k in later {
      var p := ZipLast(ks, vs, k);
      i := p + 1;
      assert keys[i] == ks[p] && values[i] == vs[p];
      assert Zip(keys, values)[k] == later[k];
      assert forall j :: i < j < n ==> keys[j] == ks[j - 1];
    } else {
      ZipKeys(ks, vs, k);
      i := 0;
      assert forall j :: 0 < j < n ==> keys[j] == ks[j - 1];
    }
  }

  /**
   * With distinct keys each row's dictionary has `min(len(keys), len(values))`
   * entries and pairs the keys and values positionally.
   */
  lemma {:induction false} ZipDistinct<V>(keys: seq<string>, values: seq<V>)
    requires forall i, j :: 0 <= i < j < |keys| ==> keys[i] != keys[j]
    ensures |Zip(keys, values)| == Min(|keys|, |values|)
    ensures forall i :: 0 <= i < Min(|keys|, |values|) ==> keys[i] in Zip(keys, values)
    ensures forall i :: 0 <= i < Min(|keys|, |values|) ==> Zip(keys, values)[keys[i]] == values[i]
  {
    if keys != [] && values != [] {
      var ks, vs := keys[1..], values[1..];
      var n := Min(|keys|, |values|);
      assert Min(|ks|, |vs|) == n - 1;
      ZipDistinct(ks, vs);
      var later := Zip(ks, vs);
      ZipLookup(ks, vs, keys[0]);
      assert keys[0] !in later;
      forall i | 0 < i < n
        ensures keys[i] in Zip(keys, values) && Zip(keys, values)[keys[i]] == values[i]
      {
        assert ks[i - 1] == keys[i] && vs[i - 1] == values[i];
      }
    }
  }

  /** `get_subscribers`: one dictionary per fetched row. */
  function Subscribers<V>(keys: seq<string>, rows: seq<seq<V>>): seq<map<string, V>>
  {
    if rows == [] then [] else [Zip(keys, rows[0])] + Subscribers(keys, rows[1..])
  }

  /**
   * There is one subscriber per row; with distinct keys each one has
   * `min(len(keys), len(row))` entries, the i-th key mapped to the row's
   * i-th value.
   */
  lemma {:induction false} SubscribersRows<V>(keys: seq<string>, rows: seq<seq<V>>)
    requires forall i, j :: 0 <= i < j < |keys| ==> keys[i] != keys[j]
    ensures |Subscribers(keys, rows)| == |rows|
    ensures forall r :: 0 <= r < |rows| ==> |Subscribers(keys, rows)[r]| == Min(|keys|, |rows[r]|)
    ensures forall r, i :: 0 <= r < |rows| && 0 <= i < Min(|keys|, |rows[r]|) ==>
      keys[i] in Subscribers(keys, rows)[r] && Subscribers(keys, rows)[r][keys[i]] == rows[r][i]
  {
    if rows != [] {
      SubscribersRows(keys, rows[1..]);
      ZipDistinct(keys, rows[0]);
    }
  }
}
