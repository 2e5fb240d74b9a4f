/**
 * The instance reader of AuctionInstanceReader.kt. A file is a sequence
 * of lines: the number of bidders, the number of items, one line of
 * budgets and one line of bids per bidder, numbers separated by single
 * spaces. Number parsing (Kotlin's `String.toInt`) is a parameter: a
 * partial function from a token to an integer.
 */
module Reader {
  import opened Outcomes
  import opened AuctionInstance

  /** The exceptions `read` can raise. */
  datatype ReadError =
    | MissingLine              // `readLine()` returned null at the end of the file
    | BadNumber                // `toInt` rejected a token
    | NegativeArraySize        // an array was allocated with a negative size
    | IndexOutOfBounds         // a token was written past the end of a row
    | Invalid(v: Violation)    // the instance's constructor rejected the arrays

  /** Kotlin's `toInt`: `None` where it throws. */
  type Parser = string -> Option<int>

  // Tokens

  /** `line.split(" ")`: cuts at every space and keeps empty tokens. */
  function Split(line: string): (r: seq<string>)
    ensures |r| >= 1
    ensures forall k :: 0 <= k < |r| ==> ' ' !in r[k]
  {
    if |line| == 0 then [""]
    else
      var rest := Split(line[1..]);
      if line[0] == ' ' then [""] + rest
      else [[line[0]] + rest[0]] + rest[1..]
  }

  /** The tokens separated by single spaces: the inverse of `Split`. */
  function Join(tokens: seq<string>): string
    requires |tokens| >= 1
  {
    if |tokens| == 1 then tokens[0]
    else tokens[0] + " " + Join(tokens[1..])
  }

  /** Splitting a line and joining its tokens gives the line back. */
  lemma {:induction false} JoinSplit(line: string)
    ensures Join(Split(line)) == line
  {
    if |line| > 0 {
      var rest := Split(line[1..]);
      JoinSplit(line[1..]);
      if line[0] == ' ' {
        assert Split(line) == [""] + rest;
        assert ([""] + rest)[1..] == rest;
        assert line == " " + line[1..];
      } else {
        var t := Split(line);
        assert t == [[line[0]] + rest[0]] + rest[1..];
        if |rest| == 1 {
          assert line == [line[0]] + line[1..];
        } else {
          assert t[1..] == rest[1..];
          assert Join(rest) == rest[0] + " " + Join(rest[1..]);
          assert line == [line[0]] + (rest[0] + " " + Join(rest[1..]));
        }
      }
    }
  }

  /** A space-free prefix glues onto the first token. */
  lemma {:induction false} SplitPrefix(w: string, s: string)
    requires ' ' !in w
    ensures Split(w + s) == [w + Split(s)[0]] + Split(s)[1..]
  {
    if |w| > 0 {
      SplitPrefix(w[1..], s);
      assert (w + s)[1..] == w[1..] + s;
      assert (w + s)[0] == w[0] != ' ';
      assert [w[0]] + (w[1..] + Split(s)[0]) == w + Split(s)[0];
    } else {
      var t := Split(s);
      assert w + s == s && w + t[0] == t[0];
      assert t == [t[0]] + t[1..];
    }
  }

  /** Joining space-free tokens and splitting the result gives them back. */
  lemma {:induction false} SplitJoin(tokens: seq<string>)
    requires |tokens| >= 1
    requires forall k :: 0 <= k < |tokens| ==> ' ' !in tokens[k]
    ensures Split(Join(tokens)) == tokens
  {
    if |tokens| == 1 {
      SplitPrefix(tokens[0], "");
      assert tokens[0] + "" == tokens[0];
    } else {
      var rest := tokens[1..];
      SplitJoin(rest);
      var tail := " " + Join(rest);
      assert Join(tokens) == tokens[0] + tail;
      SplitPrefix(tokens[0], tail);
      assert tail[1..] == Join(rest);
      assert Split(tail) == [""] + rest;
      assert tokens[0] + "" == tokens[0];
    }
  }

  /** Two spaces in a row leave an empty token between them. */
  lemma DoubleSpace(x: string, y: string)
    requires ' ' !in x
    ensures Split(x + "  " + y) == [x, ""] + Split(y)
  {
    var s := "  " + y;
    assert x + "  " + y == x + s;
    SplitPrefix(x, s);
    assert s[1..] == " " + y && (" " + y)[1..] == y;
    assert x + "" == x;
  }

  // One line of numbers

  /** The first `size` tokens (or all, if fewer) are numbers. */
  predicate Parses(toInt: Parser, tokens: seq<string>, size: int)
  {
    forall k :: 0 <= k < |tokens| && k < size ==> toInt(tokens[k]).Some?
  }

  /**
   * `row` holds the first `size` tokens, in order, and zeros where the
   * line has fewer than `size` tokens.
   */
  predicate RowOf(toInt: Parser, tokens: seq<string>, size: nat, row: seq<int>)
  {
    && |row| == size
    && forall k :: 0 <= k < size ==>
         if k < |tokens| then toInt(tokens[k]) == Some(row[k]) else row[k] == 0
  }

  /** A freshly allocated `IntArray(n)`. */
  function ZeroRow(n: nat): (r: seq<int>)
    ensures |r| == n && forall k :: 0 <= k < n ==> r[k] == 0
  {
    if n == 0 then [] else ZeroRow(n - 1) + [0]
  }

  /**
   * The loop over the tokens of one line, with `i` slots written: the
   * token is converted, then written at `i`, and the loop stops once `i`
   * reaches the end of the row.
   */
  function Fill(toInt: Parser, row: seq<int>, i: nat, tokens: seq<string>): (r: Result<seq<int>, ReadError>)
    requires i <= |row|
    ensures i < |row| ==> (r.Ok? <==> Parses(toInt, tokens, |row| - i))
    ensures i < |row| && r.Err? ==> r.error == BadNumber
    ensures i == |row| && |tokens| > 0 ==>
              r == Err(if toInt(tokens[0]).None? then BadNumber else IndexOutOfBounds)
    ensures r.Ok? ==> |r.value| == |row|
    ensures r.Ok? ==> forall k :: 0 <= k < i ==> r.value[k] == row[k]
    ensures r.Ok? ==> forall k :: i <= k < |row| ==>
              if k - i < |tokens| then toInt(tokens[k - i]) == Some(r.value[k]) else r.value[k] == row[k]
    decreases |tokens|
  {
    if |tokens| == 0 then Ok(row)
    else
      match toInt(tokens[0])
      case None => Err(BadNumber)
      case Some(v) =>
        if i >= |row| then Err(IndexOutOfBounds)
        else if i + 1 >= |row| then Ok(row[i := v])
        else
          var r := Fill(toInt, row[i := v], i + 1, tokens[1..]);
          assert Parses(toInt, tokens, |row| - i) <==> Parses(toInt, tokens[1..], |row| - (i + 1)) by {
            if Parses(toInt, tokens[1..], |row| - (i + 1)) {
              forall k | 0 <= k < |tokens| && k < |row| - i
                ensures toInt(tokens[k]).Some?
              {
                if k > 0 {
                  assert tokens[k] == tokens[1..][k - 1];
                }
              }
            }
          }
          r
  }

  /**
   * One line read into a fresh row of `size` slots: the first `size`
   * tokens in order, zeros where the line is short, and the tokens after
   * the cut never converted. With no slot at all the first write fails.
   */
  function ParseRow(toInt: Parser, tokens: seq<string>, size: nat): (r: Result<seq<int>, ReadError>)
    requires |tokens| >= 1
    ensures size > 0 ==> (r.Ok? <==> Parses(toInt, tokens, size))
    ensures size > 0 && r.Err? ==> r.error == BadNumber
    ensures size == 0 ==> r == Err(if toInt(tokens[0]).None? then BadNumber else IndexOutOfBounds)
    ensures r.Ok? ==> RowOf(toInt, tokens, size, r.value)
  {
    Fill(toInt, ZeroRow(size), 0, tokens)
  }

  /** An empty line has one empty token, so a row cannot be read from it. */
  lemma EmptyLineFails(toInt: Parser, size: nat)
    requires toInt("") == None
    ensures ParseRow(toInt, Split(""), size) == Err(BadNumber)
  {
    assert Split("") == [""];
  }

  // The file

  /** `parseBudgets`: allocates `bidders` slots, then reads one line. */
  function ParseBudgets(toInt: Parser, line: Option<string>, bidders: int): (r: Result<seq<int>, ReadError>)
    ensures bidders < 0 ==> r == Err(NegativeArraySize)
    ensures bidders >= 0 && line.None? ==> r == Err(MissingLine)
    ensures bidders > 0 && line.Some? ==> (r.Ok? <==> Parses(toInt, Split(line.value), bidders))
    ensures r.Ok? ==> bidders > 0 && line.Some? && RowOf(toInt, Split(line.value), bidders, r.value)
  {
    if bidders < 0 then Err(NegativeArraySize)
    else if line.None? then Err(MissingLine)
    else ParseRow(toInt, Split(line.value), bidders)
  }

  /** The lines of `n` bidders, one row of `items` slots each, in order. */
  function BidRows(toInt: Parser, lines: seq<string>, n: nat, items: nat): (r: Result<seq<seq<int>>, ReadError>)
    ensures r.Ok? <==> n <= |lines| && (n == 0 || items > 0)
                       && forall i :: 0 <= i < n && i < |lines| ==> Parses(toInt, Split(lines[i]), items)
    ensures r.Ok? ==> |r.value| == n
    ensures r.Ok? ==> forall i :: 0 <= i < n ==> RowOf(toInt, Split(lines[i]), items, r.value[i])
    ensures r.Err? ==> r.error in {MissingLine, BadNumber, IndexOutOfBounds}
  {
    if n == 0 then Ok([])
    else if |lines| == 0 then Err(MissingLine)
    else
      match ParseRow(toInt, Split(lines[0]), items)
      case Err(e) => Err(e)
      case Ok(row) =>
        match BidRows(toInt, lines[1..], n - 1, items)
        case Err(e) =>
          assert !(forall i :: 0 <= i < n && i < |lines| ==> Parses(toInt, Split(lines[i]), items)) || n > |lines| by {
            if n <= |lines| && forall i :: 0 <= i < n && i < |lines| ==> Parses(toInt, Split(lines[i]), items) {
              forall i | 0 <= i < n - 1 && i < |lines| - 1
                ensures Parses(toInt, Split(lines[1..][i]), items)
              {
                assert lines[1..][i] == lines[i + 1];
              }
            }
          }
          Err(e)
        case Ok(rest) =>
          forall i | 1 <= i < n
            ensures Parses(toInt, Split(lines[i]), items) && RowOf(toInt, Split(lines[i]), items, rest[i - 1])
          {
            assert lines[1..][i - 1] == lines[i];
          }
          Ok([row] + rest)
  }

  /**
   * `parseBids`: allocates `bidders` rows of `items` slots, then reads one
   * line per bidder.
   */
  function ParseBids(toInt: Parser, lines: seq<string>, bidders: int, items: int): (r: Result<seq<seq<int>>, ReadError>)
    ensures bidders < 0 || (bidders > 0 && items < 0) ==> r == Err(NegativeArraySize)
    ensures bidders > 0 && items >= 0 ==> r == BidRows(toInt, lines, bidders, items)
    ensures bidders == 0 ==> r == Ok([])
  {
    if bidders < 0 then Err(NegativeArraySize)
    else if bidders == 0 then Ok([])
    else if items < 0 then Err(NegativeArraySize)
    else BidRows(toInt, lines, bidders, items)
  }

  /**
   * The file describes an instance: two numbers of at least one, enough
   * lines, and the tokens that are read all numbers.
   */
  predicate WellFormed(toInt: Parser, lines: seq<string>)
  {
    && |lines| >= 3
    && toInt(lines[0]).Some? && toInt(lines[1]).Some?
    && var bidders, items := toInt(lines[0]).value, toInt(lines[1]).value;
       && bidders >= 1 && items >= 1
       && |lines| >= 3 + bidders
       && Parses(toInt, Split(lines[2]), bidders)
       && forall k :: 3 <= k < 3 + bidders ==> Parses(toInt, Split(lines[k]), items)
  }

  /** The instance a well-formed file describes, field by field. */
  predicate Describes(toInt: Parser, lines: seq<string>, inst: Instance)
  {
    && |lines| >= 3 + inst.bidders
    && inst.bidders >= 1 && inst.items >= 1
    && toInt(lines[0]) == Some(inst.bidders)
    && toInt(lines[1]) == Some(inst.items)
    && RowOf(toInt, Split(lines[2]), inst.bidders, inst.budgets)
    && |inst.bids| == inst.bidders
    && forall i :: 0 <= i < inst.bidders ==> RowOf(toInt, Split(lines[3 + i]), inst.items, inst.bids[i])
  }

  /** The line at `k`, or the end of the file. */
  function LineAt(lines: seq<string>, k: nat): Option<string>
  {
    if k < |lines| then Some(lines[k]) else None
  }

  /**
   * `read`: the two counts, the budgets and the bids, each step failing
   * with the exception it raises; the arrays go to the constructor.
   */
  function Read(toInt: Parser, lines: seq<string>): (r: Result<Instance, ReadError>)
    ensures |lines| < 2 && (|lines| == 0 || toInt(lines[0]).Some?) ==> r == Err(MissingLine)
    ensures r.Ok? ==> Valid(r.value)
    ensures r.Ok? ==> && |lines| >= 3
                      && toInt(lines[0]) == Some(r.value.bidders)
                      && toInt(lines[1]) == Some(r.value.items)
  {
    if |lines| == 0 then Err(MissingLine)
    else
      match toInt(lines[0])
      case None => Err(BadNumber)
      case Some(bidders) =>
        if |lines| == 1 then Err(MissingLine)
        else
          match toInt(lines[1])
          case None => Err(BadNumber)
          case Some(items) =>
            match ParseBudgets(toInt, LineAt(lines, 2), bidders)
            case Err(e) => Err(e)
            case Ok(budgets) =>
              match ParseBids(toInt, lines[3..], bidders, items)
              case Err(e) => Err(e)
              case Ok(bids) =>
                match Create(bidders, items, budgets, bids)
                case Err(v) => Err(Invalid(v))
                case Ok(inst) => Ok(inst)
  }

  /** The rows read from `lines[3..]` are the rows of lines `3 + i`. */
  lemma BidLines(toInt: Parser, lines: seq<string>, bidders: nat, items: nat, bids: seq<seq<int>>)
    requires |lines| >= 3
    requires BidRows(toInt, lines[3..], bidders, items) == Ok(bids)
    ensures |lines| >= 3 + bidders && (bidders == 0 || items > 0) && |bids| == bidders
    ensures forall i :: 0 <= i < bidders ==>
              Parses(toInt, Split(lines[3 + i]), items) && RowOf(toInt, Split(lines[3 + i]), items, bids[i])
  {
    forall i | 0 <= i < bidders
      ensures lines[3..][i] == lines[3 + i]
    {
    }
  }

  /**
   * Reading succeeds exactly on a well-formed file, and then yields the
   * instance the file describes.
   */
  lemma ReadSucceeds(toInt: Parser, lines: seq<string>)
    ensures Read(toInt, lines).Ok? <==> WellFormed(toInt, lines)
    ensures Read(toInt, lines).Ok? ==> Describes(toInt, lines, Read(toInt, lines).value)
  {
    if WellFormed(toInt, lines) {
      var bidders, items := toInt(lines[0]).value, toInt(lines[1]).value;
      var tail := lines[3..];
      forall i | 0 <= i < bidders && i < |tail|
        ensures Parses(toInt, Split(tail[i]), items)
      {
        assert tail[i] == lines[3 + i];
      }
      var bids := BidRows(toInt, tail, bidders, items).value;
      BidLines(toInt, lines, bidders, items, bids);
    }
    var r := Read(toInt, lines);
    if r.Ok? {
      var bidders, items := toInt(lines[0]).value, toInt(lines[1]).value;
      var bids := BidRows(toInt, lines[3..], bidders, items).value;
      BidLines(toInt, lines, bidders, items, bids);
    }
  }

  /**
   * The constructor's checks never fire on a file: a count below one
   * already fails while the arrays are filled, and the arrays read have
   * the sizes the constructor demands.
   */
  lemma ReadNeverInvalid(toInt: Parser, lines: seq<string>)
    ensures Read(toInt, lines).Err? ==> !Read(toInt, lines).error.Invalid?
  {
    if |lines| >= 3 && toInt(lines[0]).Some? && toInt(lines[1]).Some? {
      var bidders, items := toInt(lines[0]).value, toInt(lines[1]).value;
      var budgets := ParseBudgets(toInt, LineAt(lines, 2), bidders);
      if budgets.Ok? {
        var bids := ParseBids(toInt, lines[3..], bidders, items);
        if bids.Ok? {
          assert bidders > 0 && items >= 0;
          BidLines(toInt, lines, bidders, items, bids.value);
          var inst := Instance(bidders, items, budgets.value, bids.value);
          assert |inst.budgets| == bidders;
          assert forall i :: 0 <= i < |inst.bids| ==> |inst.bids[i]| == items;
          assert Valid(inst);
          ValidIsCreated(inst);
          assert Read(toInt, lines) == Ok(inst);
        }
      }
    }
  }

  /** With no bidders the first budget token is written out of bounds. */
  lemma NoBiddersFails(toInt: Parser, lines: seq<string>)
    requires |lines| >= 3 && toInt(lines[0]) == Some(0) && toInt(lines[1]).Some?
    ensures Read(toInt, lines) == Err(if toInt(Split(lines[2])[0]).None? then BadNumber else IndexOutOfBounds)
  {
  }

  /** With no items the first bid of the first bidder is written out of bounds. */
  lemma NoItemsFails(toInt: Parser, lines: seq<string>)
    requires |lines| >= 4 && toInt(lines[1]) == Some(0)
    requires toInt(lines[0]).Some? && toInt(lines[0]).value >= 1
    requires Parses(toInt, Split(lines[2]), toInt(lines[0]).value)
    ensures Read(toInt, lines) == Err(if toInt(Split(lines[3])[0]).None? then BadNumber else IndexOutOfBounds)
  {
    assert lines[3..][0] == lines[3];
  }

  // Writing an instance

  /** The numbers of a row written as tokens. */
  function Tokens(show: int -> string, xs: seq<int>): (r: seq<string>)
    ensures |r| == |xs| && forall k :: 0 <= k < |xs| ==> r[k] == show(xs[k])
  {
    if |xs| == 0 then [] else [show(xs[0])] + Tokens(show, xs[1..])
  }

  /** One line per row of bids. */
  function BidLinesOf(show: int -> string, bids: seq<seq<int>>): (r: seq<string>)
    requires forall i :: 0 <= i < |bids| ==> |bids[i]| >= 1
    ensures |r| == |bids| && forall i :: 0 <= i < |bids| ==> r[i] == Join(Tokens(show, bids[i]))
  {
    if |bids| == 0 then [] else [Join(Tokens(show, bids[0]))] + BidLinesOf(show, bids[1..])
  }

  /** The file of a valid instance, numbers written with `show`. */
  function Format(show: int -> string, inst: Instance): seq<string>
    requires Valid(inst)
  {
    [show(inst.bidders), show(inst.items), Join(Tokens(show, inst.budgets))] + BidLinesOf(show, inst.bids)
  }

  /** A value of Kotlin's 32-bit `Int`: the only numbers `toInt` can return. */
  predicate IsInt(x: int)
  {
    -0x8000_0000 <= x < 0x8000_0000
  }

  /** Every number of the instance is an `Int`, as the fields of the class are. */
  predicate IntsOnly(inst: Instance)
  {
    && IsInt(inst.bidders) && IsInt(inst.items)
    && (forall k :: 0 <= k < |inst.budgets| ==> IsInt(inst.budgets[k]))
    && (forall i, k :: 0 <= i < |inst.bids| && 0 <= k < |inst.bids[i]| ==> IsInt(inst.bids[i][k]))
  }

  /**
   * Predicate: `toInt` reads back every `Int` that `show` writes, and no
   * written `Int` contains a space. Numbers outside the `Int` range are
   * not constrained, so a 32-bit parser can meet it.
   */
  ghost predicate Inverse(toInt: Parser, show: int -> string)
  {
    forall x :: IsInt(x) ==> toInt(show(x)) == Some(x) && ' ' !in show(x)
  }

  /** A number written in unary: `x` letters `p` for `x >= 0`, `-x` letters `n` otherwise. */
  function Unary(x: int): (r: string)
    ensures ' ' !in r
  {
    if x >= 0 then seq(x, _ => 'p') else seq(-x, _ => 'n')
  }

  /** Reads a unary number, and only one that is an `Int`. */
  function ReadUnary(s: string): (r: Option<int>)
    ensures r.Some? ==> IsInt(r.value)
  {
    if |s| < 0x8000_0000 && forall k :: 0 <= k < |s| ==> s[k] == 'p' then Some(|s|)
    else if 0 < |s| <= 0x8000_0000 && forall k :: 0 <= k < |s| ==> s[k] == 'n' then Some(-|s|)
    else None
  }

  /** A parser that returns only `Int`s can invert a format: `Inverse` is no stronger than Kotlin's `toInt` allows. */
  lemma UnaryInverse()
    ensures Inverse(ReadUnary, Unary)
  {
    forall x | IsInt(x)
      ensures ReadUnary(Unary(x)) == Some(x)
    {
      if x < 0 {
        assert Unary(x)[0] == 'n';
      }
    }
  }

  /** A row written with `show` is read back unchanged. */
  lemma RowRoundTrip(toInt: Parser, show: int -> string, xs: seq<int>)
    requires Inverse(toInt, show) && |xs| >= 1
    requires forall k :: 0 <= k < |xs| ==> IsInt(xs[k])
    ensures Split(Join(Tokens(show, xs))) == Tokens(show, xs)
    ensures Parses(toInt, Tokens(show, xs), |xs|)
    ensures RowOf(toInt, Tokens(show, xs), |xs|, xs)
  {
    var t := Tokens(show, xs);
    TokensRead(toInt, show, xs);
    SplitJoin(t);
  }

  /** Every written token is space-free and reads back as its number. */
  lemma TokensRead(toInt: Parser, show: int -> string, xs: seq<int>)
    requires Inverse(toInt, show)
    requires forall k :: 0 <= k < |xs| ==> IsInt(xs[k])
    ensures forall k :: 0 <= k < |xs| ==>
              ' ' !in Tokens(show, xs)[k] && toInt(Tokens(show, xs)[k]) == Some(xs[k])
  {
    var t := Tokens(show, xs);
    forall k | 0 <= k < |xs|
      ensures ' ' !in t[k] && toInt(t[k]) == Some(xs[k])
    {
      InverseAt(toInt, show, xs[k]);
    }
  }

  lemma InverseAt(toInt: Parser, show: int -> string, x: int)
    requires Inverse(toInt, show) && IsInt(x)
    ensures toInt(show(x)) == Some(x) && ' ' !in show(x)
  {
  }

  /** Reading the file of a valid instance of `Int`s gives the instance back. */
  lemma ReadFormat(toInt: Parser, show: int -> string, inst: Instance)
    requires Valid(inst) && IntsOnly(inst) && Inverse(toInt, show)
    ensures Read(toInt, Format(show, inst)) == Ok(inst)
  {
    var lines := Format(show, inst);
    RowRoundTrip(toInt, show, inst.budgets);
    forall i | 0 <= i < inst.bidders
      ensures Parses(toInt, Split(lines[3 + i]), inst.items)
      ensures RowOf(toInt, Split(lines[3 + i]), inst.items, inst.bids[i])
    {
      assert lines[3 + i] == Join(Tokens(show, inst.bids[i]));
      RowRoundTrip(toInt, show, inst.bids[i]);
    }
    ReadSucceeds(toInt, lines);
    var r := Read(toInt, lines).value;
    RowsDetermined(toInt, lines, inst, r);
  }

  /** Two instances a file describes are the same instance. */
  lemma RowsDetermined(toInt: Parser, lines: seq<string>, a: Instance, b: Instance)
    requires Describes(toInt, lines, a) && Describes(toInt, lines, b)
    ensures a == b
  {
    forall k | 0 <= k < a.bidders
      ensures a.budgets[k] == b.budgets[k]
    {
      if k >= |Split(lines[2])| {
      }
    }
    forall i | 0 <= i < a.bidders
      ensures a.bids[i] == b.bids[i]
    {
      forall k | 0 <= k < a.items
        ensures a.bids[i][k] == b.bids[i][k]
      {
      }
    }
  }
}
