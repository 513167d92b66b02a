/** The order message handed to the messaging link. */
module Order {
  import opened Wrappers
  import opened Text
  import opened Catalog
  import opened Cart

  /** The opening line of every order, without its newline. */
  const Greeting: string := "Bonjour, je souhaite commander:"

  /** The text of a cart line in the message, without its newline:
      `- {nom} : {prix} F`. */
  function LineText(p: Product): string {
    "- " + p.nom + " : " + IntToString(p.prix) + " F"
  }

  /** The body of the message: one newline-terminated line per cart line,
      in cart order. */
  function OrderLines(cart: Cart): string {
    if |cart| == 0 then "" else LineText(cart[0]) + "\n" + OrderLines(cart[1..])
  }

  /** `commanderPanier`: no message for an empty cart (the page shows an
      alert instead); otherwise the greeting line followed by the lines. */
  function Compose(cart: Cart): (r: Option<string>)
    ensures r.None? <==> |cart| == 0
  {
    if |cart| == 0 then None else Some(Greeting + "\n" + OrderLines(cart))
  }

  /** The page's loop: starts from the greeting and appends one line per
      cart line with `message +=`. */
  method ComposeMessage(cart: Cart) returns (message: Option<string>)
    ensures message == Compose(cart)
  {
    if |cart| == 0 {
      return None;
    }
    ghost var full := Greeting + "\n" + OrderLines(cart);
    var text := Greeting + "\n";
    assert cart[0..] == cart;
    for i := 0 to |cart|
      invariant text + OrderLines(cart[i..]) == full
    {
      var line := LineText(cart[i]) + "\n";
      OrderLinesUnfold(cart, i);
      assert text + (line + OrderLines(cart[i + 1..])) == (text + line) + OrderLines(cart[i + 1..]);
      text := text + line;
    }
    assert OrderLines(cart[|cart|..]) == "";
    assert text == full;
    return Some(text);
  }

  /** The body from line `i` on is line `i` followed by the body from `i + 1` on. */
  lemma OrderLinesUnfold(cart: Cart, i: nat)
    requires i < |cart|
    ensures OrderLines(cart[i..]) == (LineText(cart[i]) + "\n") + OrderLines(cart[i + 1..])
  {
    assert cart[i..][1..] == cart[i + 1..];
  }

  /** No name contains a line break. */
  predicate SingleLineNames(cart: Cart) {
    forall i :: 0 <= i < |cart| ==> '\n' !in cart[i].nom
  }

  /** The text of each cart line, in cart order. */
  function LineTexts(cart: Cart): (r: seq<string>)
    ensures |r| == |cart|
    ensures forall i :: 0 <= i < |cart| ==> r[i] == LineText(cart[i])
  {
    if |cart| == 0 then [] else [LineText(cart[0])] + LineTexts(cart[1..])
  }

  /** A line of the message holds no line break of its own. */
  lemma LineTextSingleLine(p: Product)
    requires '\n' !in p.nom
    ensures '\n' !in LineText(p)
  {
    assert '\n' !in IntToString(p.prix);
  }

  /** The body is the cart's line texts joined with newlines. */
  lemma {:induction false} OrderLinesJoin(cart: Cart)
    ensures OrderLines(cart) == JoinLines(LineTexts(cart))
  {
    if |cart| > 0 {
      OrderLinesJoin(cart[1..]);
      assert LineTexts(cart)[1..] == LineTexts(cart[1..]);
    }
  }

  /** The message body splits into one line per cart line, then the empty
      remainder after the final newline. */
  lemma OrderLinesSplit(cart: Cart)
    requires SingleLineNames(cart)
    ensures SplitLines(OrderLines(cart)) == LineTexts(cart) + [""]
  {
    OrderLinesJoin(cart);
    forall k | 0 <= k < |cart| ensures '\n' !in LineTexts(cart)[k] {
      LineTextSingleLine(cart[k]);
    }
    SplitJoinLines(LineTexts(cart));
  }

  /** The message of a non-empty cart reads, line by line, as the greeting
      followed by one `- nom : prix F` line per cart line in cart order:
      `1 + |cart|` lines, each ending in a newline. */
  lemma ComposeLines(cart: Cart)
    requires |cart| > 0
    requires SingleLineNames(cart)
    ensures SplitLines(Compose(cart).value) == [Greeting] + LineTexts(cart) + [""]
    ensures |SplitLines(Compose(cart).value)| == 1 + |cart| + 1
  {
    GreetingSingleLine();
    SplitLinesCons(Greeting, OrderLines(cart));
    OrderLinesSplit(cart);
  }

  /** The greeting is a single line. */
  lemma GreetingSingleLine()
    ensures '\n' !in Greeting
  {
  }

  /** The price field of a message line: the text after the last space,
      once the closing `" F"` is dropped. */
  function PriceField(line: string): string {
    if |line| < 2 then "" else AfterLast(line[..|line| - 2], ' ')
  }

  /** Each line's price field is the printed price and reads back as the
      product's price, even when the name holds spaces or `" : "`. */
  lemma LinePriceReadsBack(p: Product)
    ensures PriceField(LineText(p)) == IntToString(p.prix)
    ensures ParseInt(PriceField(LineText(p))) == p.prix
  {
    var t := LineText(p);
    var d := IntToString(p.prix);
    assert ' ' !in d by {
      forall i | 0 <= i < |d| ensures d[i] != ' ' {
        assert i == 0 || IsDigit(d[i]);
      }
    }
    assert t[..|t| - 2] == ("- " + p.nom + " :") + [' '] + d;
    AfterLastField("- " + p.nom + " :", ' ', d);
    IntToStringRoundTrip(p.prix);
  }

  /** Adding a product to a non-empty cart appends exactly its line to the message. */
  lemma {:induction false} ComposeAfterAdd(cart: Cart, p: Product)
    requires |cart| > 0
    ensures Compose(Add(cart, p)) == Some(Compose(cart).value + (LineText(p) + "\n"))
  {
    var line := LineText(p) + "\n";
    var before := Compose(cart).value;
    assert Add(cart, p) == cart + [p];
    assert Compose(cart + [p]).value == before + line by {
      OrderLinesSnoc(cart, p);
      Regroup(Greeting + "\n", OrderLines(cart), line);
    }
  }

  /** Regrouping a three-part concatenation; kept apart because the solver
      finds this step costly inside a larger proof. */
  lemma Regroup(head: string, body: string, line: string)
    ensures head + (body + line) == (head + body) + line
  {
  }

  /** Appending a cart line appends its message line. */
  lemma {:induction false} OrderLinesSnoc(cart: Cart, p: Product)
    ensures OrderLines(cart + [p]) == OrderLines(cart) + (LineText(p) + "\n")
  {
    if |cart| == 0 {
      assert ([p])[1..] == [];
    } else {
      assert (cart + [p])[1..] == cart[1..] + [p];
      OrderLinesSnoc(cart[1..], p);
    }
  }
}
