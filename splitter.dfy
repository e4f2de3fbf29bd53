/** The input splitter: the line the user typed becomes one scan target per
    comma-separated piece, trimmed and given a scheme when it has none. */
module Splitter {
  import opened Strings

  const Http: string := "http://"
  const Https: string := "https://"

  /** The two prefixes that count as a scheme. */
  predicate HasScheme(s: string) {
    StartsWith(s, Http) || StartsWith(s, Https)
  }

  /** One token made into a target: stripped of surrounding whitespace, then prefixed
      with `https://` unless it already begins with `http://` or `https://`. */
  function NormalizeSite(token: string): (site: string)
    ensures HasScheme(site)
    ensures HasScheme(Strip(token)) ==> site == Strip(token)
    ensures !HasScheme(Strip(token)) ==> site == Https + Strip(token)
  {
    var t := Strip(token);
    if HasScheme(t) then t else Https + t
  }

  /** A target has no whitespace at either end, so stripping it changes nothing. */
  lemma NormalizedIsStripped(token: string)
    ensures Strip(NormalizeSite(token)) == NormalizeSite(token)
  {
    var t := Strip(token);
    var site := NormalizeSite(token);
    if HasScheme(t) {
      StripFixed(t);
    } else {
      assert !IsSpace(site[0]) && !IsSpace(site[|site| - 1]) by {
        assert site == Https + t;
        assert site[0] == 'h';
        assert site[|site| - 1] == if t == [] then '/' else t[|t| - 1];
      }
      StripFixed(site);
    }
  }

  /** Normalising a target again leaves it unchanged. */
  lemma NormalizeIdempotent(token: string)
    ensures NormalizeSite(NormalizeSite(token)) == NormalizeSite(token)
  {
    NormalizedIsStripped(token);
  }

  /** Each piece normalised, in order. */
  function NormalizeAll(pieces: seq<string>): (sites: seq<string>)
    ensures |sites| == |pieces|
    ensures forall k :: 0 <= k < |pieces| ==> sites[k] == NormalizeSite(pieces[k])
  {
    if pieces == [] then [] else [NormalizeSite(pieces[0])] + NormalizeAll(pieces[1..])
  }

  /** The targets of an input line, one per comma-separated piece, in input order. */
  function Targets(input: string): (sites: seq<string>)
    ensures |sites| == CountChar(input, ',') + 1
    ensures forall k :: 0 <= k < |sites| ==> HasScheme(sites[k])
  {
    SplitCount(input, ',');
    NormalizeAll(Split(input, ','))
  }

  /** The targets are the normalised pieces of the line in order; joining those pieces
      with commas gives back the line. */
  lemma TargetsArePieces(input: string)
    ensures var pieces := Split(input, ',');
            |Targets(input)| == |pieces| && Join(pieces, ',') == input
            && forall k :: 0 <= k < |pieces| ==> Targets(input)[k] == NormalizeSite(pieces[k])
  {
    JoinSplit(input, ',');
  }

  /** The first piece of the line gives the first target, and the rest of the line,
      after the first comma, gives the remaining targets in order. */
  lemma TargetsCons(first: string, rest: string)
    requires ',' !in first
    ensures Targets(first + [','] + rest) == [NormalizeSite(first)] + Targets(rest)
  {
    SplitCons(first, rest, ',');
    var pieces := [first] + Split(rest, ',');
    assert pieces[1..] == Split(rest, ',');
  }
}
