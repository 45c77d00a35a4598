/**
  The fragment of java.util.regex the phone-number scan uses: single-character
  classes, greedy `?`, greedy `{lo,hi}` and a greedy optional group, with no
  anchors. Two readings of a pattern are given:
  - `Match`, the backtracking matcher: it explores alternatives in Java's
    priority order (greedy `?` tries the character before skipping it,
    `{lo,hi}` tries `hi` repetitions first and backs off one at a time, an
    optional group is tried before it is skipped) and reports where the
    first successful path ends;
  - `Lang`, the language of the pattern: which words it describes at all.
  `MatchSound` and `MatchComplete` connect the two.
 */
module Regex {
  import opened Wrappers
  import opened JavaText

  /** `\d`, `[-\s]`, or one literal character. */
  datatype CharClass = Digit | DashOrSpace | Literal(c: char)

  datatype Node =
    | One(cls: CharClass)                 // x
    | Maybe(cls: CharClass)               // x?
    | Count(cls: CharClass, lo: nat, hi: nat)  // x{lo,hi}
    | MaybeGroup(body: seq<Node>)         // (...)?

  predicate In(cls: CharClass, ch: char) {
    match cls
    case Digit => IsDigit(ch)
    case DashOrSpace => ch == '-' || IsSpace(ch)
    case Literal(c) => ch == c
  }

  /** A measure that shrinks whenever the matcher moves to a smaller pattern. */
  function NodeSize(n: Node): (r: nat)
    ensures r >= 1
    ensures n.Count? ==> r == n.hi + 1
    ensures n.MaybeGroup? ==> r == 1 + Size(n.body)
    decreases n
  {
    match n
    case Count(_, _, hi) => hi + 1
    case MaybeGroup(body) => 1 + Size(body)
    case _ => 1
  }

  function Size(nodes: seq<Node>): nat
    decreases nodes
  {
    if |nodes| == 0 then 0 else NodeSize(nodes[0]) + Size(nodes[1..])
  }

  lemma {:induction false} SizeAppend(a: seq<Node>, b: seq<Node>)
    ensures Size(a + b) == Size(a) + Size(b)
  {
    if |a| > 0 {
      assert (a + b)[0] == a[0];
      assert (a + b)[1..] == a[1..] + b;
      SizeAppend(a[1..], b);
    } else {
      assert a + b == b;
    }
  }

  /** `k` copies of the single-character node. */
  function Ones(cls: CharClass, k: nat): (r: seq<Node>)
    ensures |r| == k && Size(r) == k
    ensures forall t :: 0 <= t < k ==> r[t] == One(cls)
  {
    if k == 0 then [] else [One(cls)] + Ones(cls, k - 1)
  }

  /**
    Where the first successful path of `nodes`, started at index `i` of `s`,
    ends, in Java's backtracking order; `None` when every path fails. A match
    never moves backwards and, started inside `s`, never runs past its end.
   */
  function Match(nodes: seq<Node>, s: string, i: nat): (r: Option<nat>)
    ensures r.Some? ==> i <= r.value
    ensures r.Some? && i <= |s| ==> r.value <= |s|
    decreases Size(nodes)
  {
    if |nodes| == 0 then Some(i)
    else
      var rest := nodes[1..];
      match nodes[0]
      case One(cls) =>
        if i < |s| && In(cls, s[i]) then Match(rest, s, i + 1) else None
      case Maybe(cls) =>
        if i < |s| && In(cls, s[i]) && Match(rest, s, i + 1).Some? then Match(rest, s, i + 1)
        else Match(rest, s, i)
      case Count(cls, lo, hi) =>
        if hi < lo then None
        else
          SizeAppend(Ones(cls, hi), rest);
          var most := Match(Ones(cls, hi) + rest, s, i);
          if most.Some? || hi == lo then most
          else Match([Count(cls, lo, hi - 1)] + rest, s, i)
      case MaybeGroup(body) =>
        SizeAppend(body, rest);
        var taken := Match(body + rest, s, i);
        if taken.Some? then taken else Match(rest, s, i)
  }

  /** The words `nodes` describes. */
  ghost predicate Lang(nodes: seq<Node>, w: string)
    decreases Size(nodes)
  {
    if |nodes| == 0 then w == []
    else
      var rest := nodes[1..];
      match nodes[0]
      case One(cls) =>
        |w| > 0 && In(cls, w[0]) && Lang(rest, w[1..])
      case Maybe(cls) =>
        (|w| > 0 && In(cls, w[0]) && Lang(rest, w[1..])) || Lang(rest, w)
      case Count(cls, lo, hi) =>
        lo <= hi &&
        (SizeAppend(Ones(cls, hi), rest);
         Lang(Ones(cls, hi) + rest, w) || (lo < hi && Lang([Count(cls, lo, hi - 1)] + rest, w)))
      case MaybeGroup(body) =>
        SizeAppend(body, rest);
        Lang(body + rest, w) || Lang(rest, w)
  }

  /** What the matcher reports is a word of the language, inside `s`. */
  lemma {:induction false} MatchSound(nodes: seq<Node>, s: string, i: nat)
    requires i <= |s|
    ensures Match(nodes, s, i).Some? ==>
      var j := Match(nodes, s, i).value; i <= j <= |s| && Lang(nodes, s[i..j])
    decreases Size(nodes)
  {
    if |nodes| > 0 && Match(nodes, s, i).Some? {
      var rest := nodes[1..];
      var j := Match(nodes, s, i).value;
      match nodes[0]
      case One(cls) =>
        MatchSound(rest, s, i + 1);
        assert s[i..j][1..] == s[i + 1..j];
      case Maybe(cls) =>
        if i < |s| && In(cls, s[i]) && Match(rest, s, i + 1).Some? {
          MatchSound(rest, s, i + 1);
          assert s[i..j][1..] == s[i + 1..j];
        } else {
          MatchSound(rest, s, i);
        }
      case Count(cls, lo, hi) =>
        SizeAppend(Ones(cls, hi), rest);
        if Match(Ones(cls, hi) + rest, s, i).Some? {
          MatchSound(Ones(cls, hi) + rest, s, i);
        } else {
          MatchSound([Count(cls, lo, hi - 1)] + rest, s, i);
          assert ([Count(cls, lo, hi - 1)] + rest)[1..] == rest;
        }
      case MaybeGroup(body) =>
        SizeAppend(body, rest);
        if Match(body + rest, s, i).Some? {
          MatchSound(body + rest, s, i);
        } else {
          MatchSound(rest, s, i);
        }
    }
  }

  /** If any word of the language starts at `i`, the matcher finds a match there. */
  lemma {:induction false} MatchComplete(nodes: seq<Node>, s: string, i: nat, j: nat)
    requires i <= j <= |s| && Lang(nodes, s[i..j])
    ensures Match(nodes, s, i).Some?
    decreases Size(nodes)
  {
    if |nodes| > 0 {
      var rest := nodes[1..];
      match nodes[0]
      case One(cls) =>
        assert s[i..j][1..] == s[i + 1..j];
        MatchComplete(rest, s, i + 1, j);
      case Maybe(cls) =>
        if j > i && In(cls, s[i]) && Lang(rest, s[i..j][1..]) {
          assert s[i..j][1..] == s[i + 1..j];
          MatchComplete(rest, s, i + 1, j);
        } else {
          MatchComplete(rest, s, i, j);
        }
      case Count(cls, lo, hi) =>
        SizeAppend(Ones(cls, hi), rest);
        if Lang(Ones(cls, hi) + rest, s[i..j]) {
          MatchComplete(Ones(cls, hi) + rest, s, i, j);
        } else {
          assert ([Count(cls, lo, hi - 1)] + rest)[1..] == rest;
          MatchComplete([Count(cls, lo, hi - 1)] + rest, s, i, j);
        }
      case MaybeGroup(body) =>
        SizeAppend(body, rest);
        if Lang(body + rest, s[i..j]) {
          MatchComplete(body + rest, s, i, j);
        } else {
          MatchComplete(rest, s, i, j);
        }
    }
  }

  // ---------------------------------------------------------------------------
  // Digits in a matched word

  /** How many characters of `w` are ASCII digits. */
  function DigitCount(w: string): nat {
    if |w| == 0 then 0 else (if IsDigit(w[0]) then 1 else 0) + DigitCount(w[1..])
  }

  /**
    1 when every member of the class is a digit, 0 when none is; each class
    here is one or the other.
   */
  function ClassDigit(cls: CharClass): (d: nat)
    ensures d <= 1
    ensures forall ch :: In(cls, ch) ==> (IsDigit(ch) <==> d == 1)
  {
    match cls
    case Digit => 1
    case DashOrSpace => 0
    case Literal(c) => if IsDigit(c) then 1 else 0
  }

  /** The fewest digits a word of `nodes` can hold. */
  function MinDigits(nodes: seq<Node>): nat {
    if |nodes| == 0 then 0
    else
      var here := match nodes[0]
        case One(cls) => ClassDigit(cls)
        case Count(cls, lo, _) => ClassDigit(cls) * lo
        case _ => 0;
      here + MinDigits(nodes[1..])
  }

  /** The most digits a word of `nodes` can hold. */
  function MaxDigits(nodes: seq<Node>): nat
    decreases Size(nodes)
  {
    if |nodes| == 0 then 0
    else
      var here := match nodes[0]
        case One(cls) => ClassDigit(cls)
        case Maybe(cls) => ClassDigit(cls)
        case Count(cls, _, hi) => ClassDigit(cls) * hi
        case MaybeGroup(body) => MaxDigits(body);
      here + MaxDigits(nodes[1..])
  }

  lemma {:induction false} DigitBoundsAppend(a: seq<Node>, b: seq<Node>)
    ensures MinDigits(a + b) == MinDigits(a) + MinDigits(b)
    ensures MaxDigits(a + b) == MaxDigits(a) + MaxDigits(b)
  {
    if |a| > 0 {
      assert (a + b)[0] == a[0];
      assert (a + b)[1..] == a[1..] + b;
      DigitBoundsAppend(a[1..], b);
    } else {
      assert a + b == b;
    }
  }

  lemma {:induction false} DigitBoundsOnes(cls: CharClass, k: nat)
    ensures MinDigits(Ones(cls, k)) == ClassDigit(cls) * k
    ensures MaxDigits(Ones(cls, k)) == ClassDigit(cls) * k
  {
    if k > 0 {
      assert Ones(cls, k)[1..] == Ones(cls, k - 1);
      DigitBoundsOnes(cls, k - 1);
    }
  }

  /** Every word of the language holds between `MinDigits` and `MaxDigits` digits. */
  lemma {:induction false} DigitBounds(nodes: seq<Node>, w: string)
    requires Lang(nodes, w)
    ensures MinDigits(nodes) <= DigitCount(w) <= MaxDigits(nodes)
    decreases Size(nodes)
  {
    if |nodes| > 0 {
      var rest := nodes[1..];
      match nodes[0]
      case One(cls) =>
        DigitBounds(rest, w[1..]);
      case Maybe(cls) =>
        if |w| > 0 && In(cls, w[0]) && Lang(rest, w[1..]) {
          DigitBounds(rest, w[1..]);
        } else {
          DigitBounds(rest, w);
        }
      case Count(cls, lo, hi) =>
        SizeAppend(Ones(cls, hi), rest);
        if Lang(Ones(cls, hi) + rest, w) {
          DigitBounds(Ones(cls, hi) + rest, w);
          CountUnrolledBounds(nodes, cls, lo, hi);
        } else {
          var shorter := [Count(cls, lo, hi - 1)] + rest;
          DigitBounds(shorter, w);
          CountShorterBounds(nodes, cls, lo, hi);
        }
      case MaybeGroup(body) =>
        SizeAppend(body, rest);
        if Lang(body + rest, w) {
          DigitBounds(body + rest, w);
          DigitBoundsAppend(body, rest);
        } else {
          DigitBounds(rest, w);
        }
    }
  }

  /** Unrolling `x{lo,hi}` to `hi` copies of `x` keeps the most digits and cannot lower the fewest. */
  lemma CountUnrolledBounds(nodes: seq<Node>, cls: CharClass, lo: nat, hi: nat)
    requires |nodes| > 0 && nodes[0] == Count(cls, lo, hi) && lo <= hi
    ensures MinDigits(nodes) <= MinDigits(Ones(cls, hi) + nodes[1..])
    ensures MaxDigits(Ones(cls, hi) + nodes[1..]) == MaxDigits(nodes)
  {
    DigitBoundsAppend(Ones(cls, hi), nodes[1..]);
    DigitBoundsOnes(cls, hi);
    MulMono(ClassDigit(cls), lo, hi);
  }

  /** Lowering the upper count of `x{lo,hi}` by one keeps the fewest digits and cannot raise the most. */
  lemma CountShorterBounds(nodes: seq<Node>, cls: CharClass, lo: nat, hi: nat)
    requires |nodes| > 0 && nodes[0] == Count(cls, lo, hi) && lo < hi
    ensures MinDigits([Count(cls, lo, hi - 1)] + nodes[1..]) == MinDigits(nodes)
    ensures MaxDigits([Count(cls, lo, hi - 1)] + nodes[1..]) <= MaxDigits(nodes)
  {
    var shorter := [Count(cls, lo, hi - 1)] + nodes[1..];
    assert shorter[1..] == nodes[1..];
    MulMono(ClassDigit(cls), hi - 1, hi);
  }

  lemma MulMono(d: nat, a: nat, b: nat)
    requires d <= 1 && a <= b
    ensures d * a <= d * b
  {
    if d == 1 {
      assert d * a == a && d * b == b;
    }
  }

  /** The last node is a mandatory digit: `\d`, or `\d{lo,hi}` with `lo >= 1`. */
  predicate EndsInDigit(nodes: seq<Node>) {
    |nodes| > 0 &&
    match nodes[|nodes| - 1]
    case One(cls) => ClassDigit(cls) == 1
    case Count(cls, lo, _) => lo >= 1 && ClassDigit(cls) == 1
    case _ => false
  }

  lemma EndsInDigitAppend(a: seq<Node>, b: seq<Node>)
    requires EndsInDigit(b)
    ensures EndsInDigit(a + b)
  {
    assert (a + b)[|a + b| - 1] == b[|b| - 1];
  }

  /** A word of a language whose last node is a mandatory digit ends with a digit. */
  lemma {:induction false} LastCharIsDigit(nodes: seq<Node>, w: string)
    requires Lang(nodes, w) && EndsInDigit(nodes)
    ensures |w| > 0 && IsDigit(w[|w| - 1])
    decreases Size(nodes)
  {
    var rest := nodes[1..];
    assert |rest| > 0 ==> rest[|rest| - 1] == nodes[|nodes| - 1];
    match nodes[0]
    case One(cls) =>
      if |rest| > 0 {
        LastCharIsDigit(rest, w[1..]);
        assert w[1..][|w[1..]| - 1] == w[|w| - 1];
      }
    case Maybe(cls) =>
      if |w| > 0 && In(cls, w[0]) && Lang(rest, w[1..]) {
        LastCharIsDigit(rest, w[1..]);
        assert w[1..][|w[1..]| - 1] == w[|w| - 1];
      } else {
        LastCharIsDigit(rest, w);
      }
    case Count(cls, lo, hi) =>
      SizeAppend(Ones(cls, hi), rest);
      if Lang(Ones(cls, hi) + rest, w) {
        if |rest| > 0 {
          EndsInDigitAppend(Ones(cls, hi), rest);
        } else {
          assert Ones(cls, hi) + rest == Ones(cls, hi);
        }
        LastCharIsDigit(Ones(cls, hi) + rest, w);
      } else {
        var shorter := [Count(cls, lo, hi - 1)] + rest;
        assert shorter[1..] == rest;
        if |rest| > 0 {
          EndsInDigitAppend([Count(cls, lo, hi - 1)], rest);
        }
        LastCharIsDigit(shorter, w);
      }
    case MaybeGroup(body) =>
      SizeAppend(body, rest);
      if Lang(body + rest, w) {
        EndsInDigitAppend(body, rest);
        LastCharIsDigit(body + rest, w);
      } else {
        LastCharIsDigit(rest, w);
      }
  }
}
