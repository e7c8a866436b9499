/**
 The argument loop of Main: every `key=value` token is split on its first '=', tokens
 without '=' or starting with '=' are ignored, the key is trimmed and lower-cased, the
 value trimmed, and the first token that names a key decides its value.
 */
module Options {
  import opened Wrappers
  import opened Text

  /** One accepted option token. */
  datatype Parameter = Parameter(key: string, value: string)

  /** The treatment of one token: None when it is ignored ("Ignored parameter"). */
  function ParseToken(arg: string): (r: Option<Parameter>)
    ensures r.None? <==> '=' !in arg || arg[0] == '='
  {
    var pos := IndexOf(arg, '=');
    if pos <= 0 then None
    else Some(Parameter(Lower(Trim(arg[..pos])), Trim(arg[pos + 1..])))
  }

  /** An accepted token is cut at its first '=': the key is the trimmed, lower-cased text
      before it and the value the trimmed text after it. */
  lemma ParseTokenCutsAtFirstEquals(arg: string)
    requires ParseToken(arg).Some?
    ensures exists pos :: 0 < pos < |arg| && arg[pos] == '=' && '=' !in arg[..pos]
                          && ParseToken(arg).value == Parameter(Lower(Trim(arg[..pos])), Trim(arg[pos + 1..]))
  {
    var pos := IndexOf(arg, '=');
    assert 0 < pos < |arg| && arg[pos] == '=' && '=' !in arg[..pos];
  }

  /** Writing `key=value` with an '='-free, non-empty key yields that key (trimmed and
      lower-cased) and the whole trimmed value, later '=' characters included. */
  lemma ParseTokenSplitsAtFirstEquals(key: string, value: string)
    requires |key| > 0 && '=' !in key
    ensures ParseToken(key + "=" + value) == Some(Parameter(Lower(Trim(key)), Trim(value)))
  {
    var arg := key + "=" + value;
    assert arg[|key|] == '=';
    assert arg[..|key|] == key;
    assert arg[|key| + 1..] == value;
    assert IndexOf(arg, '=') == |key|;
  }

  /** Every token, parsed on its own. */
  function Tokens(args: seq<string>): (ps: seq<Option<Parameter>>)
    ensures |ps| == |args|
    ensures forall i :: 0 <= i < |args| ==> ps[i] == ParseToken(args[i])
  {
    seq(|args|, i requires 0 <= i < |args| => ParseToken(args[i]))
  }

  /** The parsed token is accepted and names key `k`. */
  predicate Names(p: Option<Parameter>, k: string) {
    p.Some? && p.value.key == k
  }

  /** The dictionary after one more token: unchanged when the token is ignored or its key
      is already present (Dictionary.ContainsKey), extended otherwise. */
  function Insert(parameters: map<string, string>, p: Option<Parameter>): map<string, string> {
    match p
    case None => parameters
    case Some(q) => if q.key in parameters then parameters else parameters[q.key := q.value]
  }

  /** One step of the loop, key by key; at most one entry is added. */
  lemma InsertAt(parameters: map<string, string>, p: Option<Parameter>, k: string)
    ensures k in Insert(parameters, p) <==> k in parameters || Names(p, k)
    ensures k in Insert(parameters, p) ==>
              Insert(parameters, p)[k] == if k in parameters then parameters[k] else p.value.value
  {
  }

  /** The dictionary built from parsed tokens, in order. */
  function Collect(ps: seq<Option<Parameter>>): (parameters: map<string, string>)
    ensures |parameters| <= |ps|
  {
    if |ps| == 0 then map[]
    else
      var m := Collect(ps[..|ps| - 1]);
      var last := ps[|ps| - 1];
      assert |Insert(m, last)| <= |m| + 1 by {
        if last.Some? && last.value.key !in m {
          assert m[last.value.key := last.value.value].Keys == m.Keys + {last.value.key};
        }
      }
      Insert(m, last)
  }

  /** The dictionary the loop of Main builds from the command-line tokens. */
  function Parse(args: seq<string>): (parameters: map<string, string>)
    ensures |parameters| <= |args|
  {
    Collect(Tokens(args))
  }

  /** Parsing one more token is one more Insert. */
  lemma ParseSnoc(args: seq<string>, arg: string)
    ensures Parse(args + [arg]) == Insert(Parse(args), ParseToken(arg))
  {
    assert Tokens(args + [arg])[..|args|] == Tokens(args);
  }

  /** The index of the first parsed token that names `k`, or -1: the reference for first-wins. */
  function FirstDeclaration(ps: seq<Option<Parameter>>, k: string): (r: int)
    ensures -1 <= r < |ps|
    ensures r == -1 <==> forall i :: 0 <= i < |ps| ==> !Names(ps[i], k)
    ensures r != -1 ==> Names(ps[r], k) && forall i :: 0 <= i < r ==> !Names(ps[i], k)
  {
    if |ps| == 0 then -1
    else if Names(ps[0], k) then 0
    else
      var t := FirstDeclaration(ps[1..], k);
      if t == -1 then -1 else t + 1
  }

  /** A token that names `k` with no earlier token naming it is the first declaration. */
  lemma FirstDeclarationIs(ps: seq<Option<Parameter>>, k: string, j: nat)
    requires j < |ps| && Names(ps[j], k)
    requires forall i :: 0 <= i < j ==> !Names(ps[i], k)
    ensures FirstDeclaration(ps, k) == j
  {
  }

  /** First occurrence wins over parsed tokens: a key is present exactly when some token
      names it, and its value is the one of the first such token. */
  lemma {:induction false} CollectFirstWins(ps: seq<Option<Parameter>>, k: string)
    ensures k in Collect(ps) <==> FirstDeclaration(ps, k) != -1
    ensures k in Collect(ps) ==> Collect(ps)[k] == ps[FirstDeclaration(ps, k)].value.value
    decreases |ps|
  {
    if |ps| > 0 {
      var n := |ps| - 1;
      var init := ps[..n];
      CollectFirstWins(init, k);
      InsertAt(Collect(init), ps[n], k);
      var f := FirstDeclaration(init, k);
      if f != -1 {
        FirstDeclarationIs(ps, k, f);
      } else if Names(ps[n], k) {
        FirstDeclarationIs(ps, k, n);
      } else {
        forall i | 0 <= i < |ps| ensures !Names(ps[i], k) {
          if i < n {
            assert ps[i] == init[i];
          }
        }
      }
    }
  }

  /** First occurrence wins over the command line: `k` is a key exactly when some token
      names it, and it maps to the value of the first token that does. */
  lemma ParseFirstWins(args: seq<string>, k: string)
    ensures k in Parse(args) <==> FirstDeclaration(Tokens(args), k) != -1
    ensures k in Parse(args) ==>
              var i := FirstDeclaration(Tokens(args), k);
              ParseToken(args[i]) == Some(Parameter(k, Parse(args)[k]))
  {
    CollectFirstWins(Tokens(args), k);
  }

  /** A token with no '=', or with '=' first, leaves the dictionary unchanged. */
  lemma MalformedTokenIgnored(args: seq<string>, arg: string)
    requires '=' !in arg || arg[0] == '='
    ensures Parse(args + [arg]) == Parse(args)
  {
    ParseSnoc(args, arg);
  }

  /** A token whose key is already present leaves the dictionary unchanged. */
  lemma RepeatedKeyIgnored(args: seq<string>, arg: string)
    requires ParseToken(arg).Some? && ParseToken(arg).value.key in Parse(args)
    ensures Parse(args + [arg]) == Parse(args)
  {
    ParseSnoc(args, arg);
  }

  /** Later tokens never change an entry earlier tokens made. */
  lemma {:induction false} ParseKeepsEarlierEntries(args: seq<string>, more: seq<string>, k: string)
    requires k in Parse(args)
    ensures k in Parse(args + more) && Parse(args + more)[k] == Parse(args)[k]
    decreases |more|
  {
    if |more| == 0 {
      assert args + more == args;
    } else {
      var m, last := more[..|more| - 1], more[|more| - 1];
      assert args + more == (args + m) + [last];
      ParseKeepsEarlierEntries(args, m, k);
      ParseSnoc(args + m, last);
      InsertAt(Parse(args + m), ParseToken(last), k);
    }
  }

  /** `after` is `before` with at most the key of `p` added: every earlier entry is kept
      with its value, and a new key is the token's, with the token's value. */
  ghost predicate Adds(before: map<string, string>, p: Option<Parameter>, after: map<string, string>) {
    && (forall k :: k in after <==> k in before || Names(p, k))
    && (forall k :: k in before ==> after[k] == before[k])
    && (forall k :: k in after && k !in before ==> Names(p, k) && after[k] == p.value.value)
  }

  /** Insert adds at most the token's key, keeping every earlier entry. */
  lemma InsertAdds(parameters: map<string, string>, p: Option<Parameter>)
    ensures Adds(parameters, p, Insert(parameters, p))
  {
    forall k {
      InsertAt(parameters, p, k);
    }
  }

  /** One pass of the loop in ReadParameters: a token with a non-leading '=' adds its
      trimmed, lower-cased key with the trimmed value, unless the key is already present. */
  method ReadParameter(parameters: map<string, string>, arg: string) returns (updated: map<string, string>)
    ensures Adds(parameters, ParseToken(arg), updated)
    ensures updated == Insert(parameters, ParseToken(arg))
  {
    updated := parameters;
    var pos := IndexOf(arg, '=');
    if pos > 0 {
      var tag := Lower(Trim(arg[..pos]));
      var value := Trim(arg[pos + 1..]);
      if tag !in updated {
        updated := updated[tag := value];
      }
    }
    InsertAdds(parameters, ParseToken(arg));
  }

  /** The foreach loop of Main over the command-line tokens. */
  method ReadParameters(args: seq<string>) returns (parameters: map<string, string>)
    ensures parameters == Parse(args)
  {
    parameters := map[];
    for i := 0 to |args|
      invariant parameters == Parse(args[..i])
    {
      assert args[..i + 1] == args[..i] + [args[i]];
      ParseSnoc(args[..i], args[i]);
      parameters := ReadParameter(parameters, args[i]);
    }
    assert args[..|args|] == args;
  }
}
