/**
 * `AzureBlobStorageAccountManager._parse_conn_string` and the account-name
 * lookup the account manager's constructor performs on its result.
 */
module ConnString {
  import opened Wrappers

  type ConnDict = map<string, string>

  datatype ConnError =
    | BadSegment(segment: string)   // `key, value = key_value.split('=')` did not unpack into two parts
    | SchemaMismatch                // a parsed key is outside the expected schema
    | MissingAccountName            // `conn_dict['AccountName']` raised KeyError

  /** The keys of the expected schema; every parsed key must be one of them. */
  const Schema: set<string> := {"DefaultEndpointsProtocol", "AccountName", "AccountKey", "EndpointSuffix"}

  /** Joins parts with a separator, the inverse of `Split`. */
  function JoinWith(parts: seq<string>, sep: char): string
    requires |parts| >= 1
  {
    if |parts| == 1 then parts[0] else parts[0] + [sep] + JoinWith(parts[1..], sep)
  }

  /** `s.split(sep)`: at least one part, no part holds the separator, and joining gives `s` back. */
  function Split(s: string, sep: char): (parts: seq<string>)
    ensures |parts| >= 1
    ensures forall i :: 0 <= i < |parts| ==> sep !in parts[i]
    ensures JoinWith(parts, sep) == s
  {
    if |s| == 0 then [""]
    else
      var rest := Split(s[1..], sep);
      if s[0] == sep then
        assert s == [] + [sep] + JoinWith(rest, sep);
        [""] + rest
      else
        var parts := [[s[0]] + rest[0]] + rest[1..];
        assert parts[1..] == rest[1..];
        assert JoinWith(parts, sep) == [s[0]] + JoinWith(rest, sep);
        parts
  }

  /** Number of occurrences of `c` in `s`. */
  function Count(s: string, c: char): nat
  {
    if |s| == 0 then 0 else (if s[0] == c then 1 else 0) + Count(s[1..], c)
  }

  /** `s.split(sep)` yields one more part than there are separators. */
  lemma {:induction false} SplitLength(s: string, sep: char)
    ensures |Split(s, sep)| == Count(s, sep) + 1
  {
    if |s| > 0 {
      SplitLength(s[1..], sep);
    }
  }

  lemma {:induction false} SplitNoSeparator(s: string, sep: char)
    requires sep !in s
    ensures Split(s, sep) == [s]
  {
    if |s| > 0 {
      SplitNoSeparator(s[1..], sep);
    }
  }

  lemma {:induction false} SplitAtFirstSeparator(x: string, sep: char, rest: string)
    requires sep !in x
    ensures Split(x + [sep] + rest, sep) == [x] + Split(rest, sep)
  {
    if |x| > 0 {
      var s := x + [sep] + rest;
      assert s[1..] == x[1..] + [sep] + rest;
      SplitAtFirstSeparator(x[1..], sep, rest);
      assert s[0] == x[0] && [x[0]] + x[1..] == x;
    } else {
      assert x + [sep] + rest == [sep] + rest;
    }
  }

  /** Splitting a join of separator-free parts gives the parts back. */
  lemma {:induction false} SplitJoinRoundTrip(parts: seq<string>, sep: char)
    requires |parts| >= 1
    requires forall i :: 0 <= i < |parts| ==> sep !in parts[i]
    ensures Split(JoinWith(parts, sep), sep) == parts
  {
    if |parts| == 1 {
      SplitNoSeparator(parts[0], sep);
    } else {
      SplitJoinRoundTrip(parts[1..], sep);
      SplitAtFirstSeparator(parts[0], sep, JoinWith(parts[1..], sep));
    }
  }

  /** One `key=value` segment: exactly two parts after splitting on every '='. */
  function ParseSegment(segment: string): Result<(string, string), ConnError>
  {
    var kv := Split(segment, '=');
    if |kv| == 2 then Ok((kv[0], kv[1])) else Err(BadSegment(segment))
  }

  /** A segment parses exactly when it holds one '='. */
  lemma SegmentParsesIff(segment: string)
    ensures ParseSegment(segment).Ok? <==> Count(segment, '=') == 1
  {
    SplitLength(segment, '=');
  }

  /** `key=value` parses back to the pair when neither side holds '='. */
  lemma SegmentRoundTrip(key: string, value: string)
    requires '=' !in key && '=' !in value
    ensures ParseSegment(key + "=" + value) == Ok((key, value))
  {
    assert JoinWith([key, value], '=') == key + "=" + value;
    SplitJoinRoundTrip([key, value], '=');
  }

  /** The segments in order, stopping at the first one that does not parse. */
  function ParsePairs(segments: seq<string>): Result<seq<(string, string)>, ConnError>
  {
    if segments == [] then Ok([])
    else
      match ParsePairs(segments[..|segments| - 1])
      case Err(e) => Err(e)
      case Ok(pairs) =>
        match ParseSegment(segments[|segments| - 1])
        case Err(e) => Err(e)
        case Ok(kv) => Ok(pairs + [kv])
  }

  /** The dictionary that assigning the pairs in order builds: a repeated key keeps its last value. */
  function ToDict(pairs: seq<(string, string)>): ConnDict
  {
    if pairs == [] then map[]
    else ToDict(pairs[..|pairs| - 1])[pairs[|pairs| - 1].0 := pairs[|pairs| - 1].1]
  }

  /** The specification of `_parse_conn_string`. */
  function Parse(connStr: string): Result<ConnDict, ConnError>
  {
    match ParsePairs(Split(connStr, ';'))
    case Err(e) => Err(e)
    case Ok(pairs) =>
      var dict := ToDict(pairs);
      if dict.Keys <= Schema then Ok(dict) else Err(SchemaMismatch)
  }

  /** Lines 163-164 of the account manager's constructor: the `AccountName` value, or KeyError. */
  function AccountNameOf(connStr: string): Result<string, ConnError>
  {
    match Parse(connStr)
    case Err(e) => Err(e)
    case Ok(dict) => if "AccountName" in dict then Ok(dict["AccountName"]) else Err(MissingAccountName)
  }

  lemma {:induction false} ParsePairsErrPersists(segments: seq<string>, i: nat, e: ConnError)
    requires i <= |segments|
    requires ParsePairs(segments[..i]) == Err(e)
    ensures ParsePairs(segments) == Err(e)
    decreases |segments| - i
  {
    if i < |segments| {
      assert segments[..i + 1][..i] == segments[..i];
      ParsePairsErrPersists(segments, i + 1, e);
    } else {
      assert segments[..i] == segments;
    }
  }

  /**
   * `_parse_conn_string`: split on ';', unpack each segment into a key and a
   * value, assign them into a dictionary in order, then reject the dictionary
   * when a key is outside the schema.
   */
  method ParseConnString(connStr: string) returns (r: Result<ConnDict, ConnError>)
    ensures r == Parse(connStr)
  {
    var segments := Split(connStr, ';');
    var dict: ConnDict := map[];
    ghost var pairs: seq<(string, string)> := [];
    for i := 0 to |segments|
      invariant ParsePairs(segments[..i]) == Ok(pairs)
      invariant dict == ToDict(pairs)
    {
      assert segments[..i + 1][..i] == segments[..i];
      var kv := ParseSegment(segments[i]);
      if kv.Err? {
        ParsePairsErrPersists(segments, i + 1, kv.error);
        return Err(kv.error);
      }
      var (key, value) := kv.value;
      dict := dict[key := value];
      pairs := pairs + [(key, value)];
    }
    assert segments[..|segments|] == segments;
    if !(dict.Keys <= Schema) {
      return Err(SchemaMismatch);
    }
    r := Ok(dict);
  }

  // Properties of the specification

  /** No later pair in `pairs` has the key of `pairs[i]`. */
  ghost predicate LastForKey(pairs: seq<(string, string)>, i: int)
    requires 0 <= i < |pairs|
  {
    forall j :: i < j < |pairs| ==> pairs[j].0 != pairs[i].0
  }

  /** The keys of the dictionary are the keys of the pairs. */
  lemma {:induction false} ToDictKeys(pairs: seq<(string, string)>)
    ensures ToDict(pairs).Keys == set i | 0 <= i < |pairs| :: pairs[i].0
  {
    if pairs != [] {
      var n := |pairs| - 1;
      var init := pairs[..n];
      ToDictKeys(init);
      assert forall i :: 0 <= i < n ==> init[i] == pairs[i];
      assert (set i | 0 <= i < |pairs| :: pairs[i].0) == (set i | 0 <= i < n :: init[i].0) + {pairs[n].0};
    }
  }

  /** The dictionary holds exactly the keys of the pairs, each with the value of its last pair. */
  lemma {:induction false} ToDictLastWins(pairs: seq<(string, string)>)
    ensures ToDict(pairs).Keys == set i | 0 <= i < |pairs| :: pairs[i].0
    ensures forall i :: 0 <= i < |pairs| && LastForKey(pairs, i) ==> ToDict(pairs)[pairs[i].0] == pairs[i].1
  {
    ToDictKeys(pairs);
    if pairs != [] {
      var n := |pairs| - 1;
      var init := pairs[..n];
      ToDictLastWins(init);
      forall i | 0 <= i < |pairs| && LastForKey(pairs, i)
        ensures ToDict(pairs)[pairs[i].0] == pairs[i].1
      {
        if i < n {
          assert init[i] == pairs[i];
          assert LastForKey(init, i);
        }
      }
    }
  }

  /** The segments parse exactly when each one does, into one pair per segment. */
  lemma {:induction false} ParsePairsOk(segments: seq<string>)
    ensures ParsePairs(segments).Ok? <==> forall i :: 0 <= i < |segments| ==> ParseSegment(segments[i]).Ok?
    ensures ParsePairs(segments).Ok? ==>
      |ParsePairs(segments).value| == |segments| &&
      forall i :: 0 <= i < |segments| ==> ParsePairs(segments).value[i] == ParseSegment(segments[i]).value
  {
    if segments != [] {
      var n := |segments| - 1;
      var init := segments[..n];
      ParsePairsOk(init);
      assert forall i :: 0 <= i < n ==> init[i] == segments[i];
    }
  }

  /** A failed parse names the first segment that does not unpack. */
  lemma {:induction false} ParsePairsErr(segments: seq<string>)
    requires ParsePairs(segments).Err?
    ensures exists k ::
      && 0 <= k < |segments| && ParsePairs(segments).error == BadSegment(segments[k])
      && ParseSegment(segments[k]).Err? && forall i :: 0 <= i < k ==> ParseSegment(segments[i]).Ok?
  {
    var n := |segments| - 1;
    var init := segments[..n];
    assert forall i :: 0 <= i < n ==> init[i] == segments[i];
    if ParsePairs(init).Err? {
      ParsePairsErr(init);
      var k :| 0 <= k < n && ParsePairs(init).error == BadSegment(init[k]) &&
        ParseSegment(init[k]).Err? && forall i :: 0 <= i < k ==> ParseSegment(init[i]).Ok?;
      assert ParseSegment(segments[k]).Err?;
    } else {
      ParsePairsOk(init);
      assert ParsePairs(segments).error == BadSegment(segments[n]);
    }
  }

  /** A segment `_parse_conn_string` accepts: one '=', and a key from the schema. */
  predicate SegmentAccepted(segment: string)
  {
    Count(segment, '=') == 1 && Split(segment, '=')[0] in Schema
  }

  /** A successful parse accepted every segment. */
  lemma ParseOkOnlyIf(connStr: string, i: int)
    requires Parse(connStr).Ok? && 0 <= i < |Split(connStr, ';')|
    ensures SegmentAccepted(Split(connStr, ';')[i])
  {
    var segments := Split(connStr, ';');
    var pairs := ParsePairs(segments).value;
    ParsePairsOk(segments);
    SegmentParsesIff(segments[i]);
    ToDictLastWins(pairs);
    assert pairs[i] == ParseSegment(segments[i]).value;
    assert pairs[i].0 in ToDict(pairs).Keys;
  }

  /**
   * A key outside the schema comes from a segment that unpacks but whose key
   * is not in the schema.
   */
  lemma SchemaMismatchRejects(segments: seq<string>) returns (k: nat)
    requires ParsePairs(segments).Ok? && !(ToDict(ParsePairs(segments).value).Keys <= Schema)
    ensures k < |segments| && Count(segments[k], '=') == 1 && Split(segments[k], '=')[0] !in Schema
  {
    var pairs := ParsePairs(segments).value;
    ParsePairsOk(segments);
    ToDictLastWins(pairs);
    var key :| key in ToDict(pairs).Keys && key !in Schema;
    k :| 0 <= k < |pairs| && pairs[k].0 == key;
    assert pairs[k] == ParseSegment(segments[k]).value;
    SegmentParsesIff(segments[k]);
  }

  /** A failed unpacking comes from a segment that does not hold exactly one '='. */
  lemma BadSegmentRejects(segments: seq<string>) returns (k: nat)
    requires ParsePairs(segments).Err?
    ensures k < |segments| && Count(segments[k], '=') != 1
  {
    ParsePairsErr(segments);
    k :| 0 <= k < |segments| && ParseSegment(segments[k]).Err?;
    SegmentParsesIff(segments[k]);
  }

  /** A failed parse names a segment that is not accepted. */
  lemma ParseErrRejects(connStr: string) returns (k: nat)
    requires Parse(connStr).Err?
    ensures k < |Split(connStr, ';')| && !SegmentAccepted(Split(connStr, ';')[k])
  {
    if ParsePairs(Split(connStr, ';')).Ok? {
      k := SchemaMismatchRejects(Split(connStr, ';'));
    } else {
      k := BadSegmentRejects(Split(connStr, ';'));
    }
  }

  /**
   * Parsing succeeds exactly when every ';'-separated segment holds one '='
   * and every key is in the schema; keys missing from the schema are allowed.
   */
  lemma ParseOkIff(connStr: string)
    ensures Parse(connStr).Ok? <==>
      forall i :: 0 <= i < |Split(connStr, ';')| ==> SegmentAccepted(Split(connStr, ';')[i])
  {
    if Parse(connStr).Ok? {
      forall i | 0 <= i < |Split(connStr, ';')| ensures SegmentAccepted(Split(connStr, ';')[i]) {
        ParseOkOnlyIf(connStr, i);
      }
    } else {
      var k := ParseErrRejects(connStr);
    }
  }

  /**
   * On success the dictionary holds exactly the segments' keys, each with the
   * value of the last segment carrying it.
   */
  lemma ParseLastValueWins(connStr: string)
    requires Parse(connStr).Ok?
    ensures var segments := Split(connStr, ';');
      var pairs := ParsePairs(segments).value;
      |pairs| == |segments| &&
      Parse(connStr).value.Keys == (set i | 0 <= i < |pairs| :: pairs[i].0) &&
      forall i :: 0 <= i < |pairs| && LastForKey(pairs, i) ==>
        ParseSegment(segments[i]) == Ok(pairs[i]) && Parse(connStr).value[pairs[i].0] == pairs[i].1
  {
    var segments := Split(connStr, ';');
    var pairs := ParsePairs(segments).value;
    assert Parse(connStr).value == ToDict(pairs);
    ParsePairsOk(segments);
    ToDictLastWins(pairs);
  }

  lemma {:induction false} SplitEndingInSeparator(x: string, sep: char)
    ensures |Split(x + [sep], sep)| >= 2
    ensures Split(x + [sep], sep)[|Split(x + [sep], sep)| - 1] == ""
  {
    if |x| == 0 {
      assert x + [sep] == [sep];
    } else {
      assert (x + [sep])[1..] == x[1..] + [sep];
      SplitEndingInSeparator(x[1..], sep);
    }
  }

  /** A trailing ';' leaves an empty last segment, which does not unpack. */
  lemma TrailingSemicolonFails(connStr: string)
    ensures Parse(connStr + ";").Err?
  {
    var segments := Split(connStr + ";", ';');
    SplitEndingInSeparator(connStr, ';');
    assert ParseSegment(segments[|segments| - 1]).Err?;
    ParsePairsOk(segments);
    if ParsePairs(segments).Err? { ParsePairsErr(segments); }
  }

  /** The `key=value` segments of a sequence of pairs. */
  function Segments(pairs: seq<(string, string)>): (segments: seq<string>)
    ensures |segments| == |pairs|
  {
    seq(|pairs|, i requires 0 <= i < |pairs| => pairs[i].0 + "=" + pairs[i].1)
  }

  /** The text of a sequence of pairs as a connection string, `k1=v1;k2=v2;...`. */
  function Render(pairs: seq<(string, string)>): string
    requires |pairs| >= 1
  {
    JoinWith(Segments(pairs), ';')
  }

  /** Keys and values that hold neither separator. */
  ghost predicate PlainPairs(pairs: seq<(string, string)>)
  {
    forall i :: 0 <= i < |pairs| ==>
      ';' !in pairs[i].0 && '=' !in pairs[i].0 && ';' !in pairs[i].1 && '=' !in pairs[i].1
  }

  lemma PlainSegment(key: string, value: string)
    requires ';' !in key && '=' !in key && ';' !in value && '=' !in value
    ensures ';' !in key + "=" + value
    ensures ParseSegment(key + "=" + value) == Ok((key, value))
  {
    SegmentRoundTrip(key, value);
  }

  lemma PlainSegmentsParse(pairs: seq<(string, string)>)
    requires |pairs| >= 1 && PlainPairs(pairs)
    ensures ParsePairs(Split(Render(pairs), ';')) == Ok(pairs)
  {
    var segments := Segments(pairs);
    forall i | 0 <= i < |segments| ensures ';' !in segments[i] && ParseSegment(segments[i]) == Ok(pairs[i]) {
      PlainSegment(pairs[i].0, pairs[i].1);
    }
    SplitJoinRoundTrip(segments, ';');
    ParsePairsOk(segments);
    assert ParsePairs(segments).value == pairs;
  }

  /** A rendered connection string whose keys are in the schema parses back to its pairs, whichever keys are missing. */
  lemma RenderRoundTrip(pairs: seq<(string, string)>)
    requires |pairs| >= 1 && PlainPairs(pairs)
    requires forall i :: 0 <= i < |pairs| ==> pairs[i].0 in Schema
    ensures Parse(Render(pairs)) == Ok(ToDict(pairs))
  {
    PlainSegmentsParse(pairs);
    ToDictLastWins(pairs);
  }

  /** The account name exists exactly when parsing succeeds with an `AccountName` key; its absence fails the lookup only. */
  lemma AccountNameOfIff(connStr: string)
    ensures AccountNameOf(connStr).Ok? <==> Parse(connStr).Ok? && "AccountName" in Parse(connStr).value
    ensures AccountNameOf(connStr) == Err(MissingAccountName) <==>
      Parse(connStr).Ok? && NoPairWithKey(ParsePairs(Split(connStr, ';')).value, "AccountName")
  {
    if Parse(connStr).Ok? {
      var pairs := ParsePairs(Split(connStr, ';')).value;
      var dict := Parse(connStr).value;
      assert dict == ToDict(pairs);
      MissingKeyIff(pairs, "AccountName");
    } else if ParsePairs(Split(connStr, ';')).Err? {
      // the parser's own errors name a segment, never the lookup's KeyError
      ParsePairsErr(Split(connStr, ';'));
    }
  }

  /** No pair has the key `key`. */
  ghost predicate NoPairWithKey(pairs: seq<(string, string)>, key: string)
  {
    forall i :: 0 <= i < |pairs| ==> pairs[i].0 != key
  }

  /** A key is absent from the dictionary exactly when no pair carries it. */
  lemma MissingKeyIff(pairs: seq<(string, string)>, key: string)
    ensures key !in ToDict(pairs) <==> NoPairWithKey(pairs, key)
  {
    ToDictKeys(pairs);
    if key in ToDict(pairs) {
      var i :| 0 <= i < |pairs| && pairs[i].0 == key;
    } else {
      forall i | 0 <= i < |pairs| ensures pairs[i].0 != key {
        assert pairs[i].0 in ToDict(pairs).Keys;
      }
    }
  }

  /** The account name is the value of the last `AccountName` segment, at index `last`. */
  lemma AccountNameIsLastValue(connStr: string) returns (last: nat)
    requires AccountNameOf(connStr).Ok?
    ensures var pairs := ParsePairs(Split(connStr, ';')).value;
      last < |pairs| && LastForKey(pairs, last) && pairs[last].0 == "AccountName" &&
      AccountNameOf(connStr).value == pairs[last].1
  {
    var pairs := ParsePairs(Split(connStr, ';')).value;
    var dict := Parse(connStr).value;
    assert dict == ToDict(pairs);
    ToDictLastWins(pairs);
    var i :| 0 <= i < |pairs| && pairs[i].0 == "AccountName";
    last := LastIndexOfKey(pairs, "AccountName", i);
    assert dict[pairs[last].0] == pairs[last].1;
  }

  /** The index of the last pair with key `k`, given one at `i`. */
  lemma {:induction false} LastIndexOfKey(pairs: seq<(string, string)>, k: string, i: nat) returns (last: nat)
    requires i < |pairs| && pairs[i].0 == k
    ensures i <= last < |pairs| && pairs[last].0 == k && LastForKey(pairs, last)
    decreases |pairs| - i
  {
    if LastForKey(pairs, i) {
      last := i;
    } else {
      var j :| i < j < |pairs| && pairs[j].0 == k;
      last := LastIndexOfKey(pairs, k, j);
    }
  }

  lemma {:induction false} CountAppend(a: string, b: string, c: char)
    ensures Count(a + b, c) == Count(a, c) + Count(b, c)
  {
    if |a| > 0 {
      assert (a + b)[1..] == a[1..] + b;
      CountAppend(a[1..], b, c);
    } else {
      assert a + b == b;
    }
  }

  /** Reading the account name back from a rendered connection string gives the value of its last `AccountName` pair. */
  lemma AccountNameOfRender(pairs: seq<(string, string)>, i: nat)
    requires |pairs| >= 1 && PlainPairs(pairs)
    requires forall j :: 0 <= j < |pairs| ==> pairs[j].0 in Schema
    requires i < |pairs| && pairs[i].0 == "AccountName" && LastForKey(pairs, i)
    ensures AccountNameOf(Render(pairs)) == Ok(pairs[i].1)
  {
    RenderRoundTrip(pairs);
    ToDictLastWins(pairs);
    assert ToDict(pairs)[pairs[i].0] == pairs[i].1;
  }

  /**
   * The four fields of an account-key connection string, in the order the
   * storage service prints them, with the account name read back unchanged.
   */
  lemma AccountNameRoundTrip(protocol: string, name: string, key: string, suffix: string)
    requires PlainPairs([("DefaultEndpointsProtocol", protocol), ("AccountName", name), ("AccountKey", key), ("EndpointSuffix", suffix)])
    ensures AccountNameOf(Render([("DefaultEndpointsProtocol", protocol), ("AccountName", name),
                                  ("AccountKey", key), ("EndpointSuffix", suffix)])) == Ok(name)
  {
    var pairs := [("DefaultEndpointsProtocol", protocol), ("AccountName", name), ("AccountKey", key), ("EndpointSuffix", suffix)];
    assert LastForKey(pairs, 1);
    AccountNameOfRender(pairs, 1);
  }

  /**
   * A value holding '=' breaks its segment into three parts, so a key with
   * base64 padding (`AccountKey=abc==`) is rejected, naming the first such segment.
   */
  lemma PaddedValueFails(pairs: seq<(string, string)>, k: nat)
    requires k < |pairs|
    requires forall i :: 0 <= i < |pairs| ==> ';' !in pairs[i].0 && ';' !in pairs[i].1 && '=' !in pairs[i].0
    requires forall i :: 0 <= i < k ==> '=' !in pairs[i].1
    requires '=' in pairs[k].1
    ensures Parse(Render(pairs)) == Err(BadSegment(pairs[k].0 + "=" + pairs[k].1))
  {
    var segments := Segments(pairs);
    forall i | 0 <= i < |segments| ensures ';' !in segments[i] {
      assert segments[i] == pairs[i].0 + "=" + pairs[i].1;
    }
    SplitJoinRoundTrip(segments, ';');
    forall i | 0 <= i < k ensures ParseSegment(segments[i]).Ok? {
      SegmentRoundTrip(pairs[i].0, pairs[i].1);
    }
    assert segments[k] == pairs[k].0 + "=" + pairs[k].1;
    PaddedSegmentFails(pairs[k].0, pairs[k].1);
    ParsePairsOk(segments);
    ParsePairsErr(segments);
  }

  /** `key=value` with a '=' inside the value splits into three or more parts and does not unpack. */
  lemma PaddedSegmentFails(key: string, value: string)
    requires '=' !in key && '=' in value
    ensures ParseSegment(key + "=" + value).Err?
  {
    CountAppend(key + "=", value, '=');
    CountAppend(key, "=", '=');
    SplitNoSeparator(key, '=');
    SplitLength(key, '=');
    CountPositive(value, '=');
    SegmentParsesIff(key + "=" + value);
  }

  lemma {:induction false} CountPositive(s: string, c: char)
    requires c in s
    ensures Count(s, c) >= 1
  {
    if s[0] != c {
      CountPositive(s[1..], c);
    }
  }
}
