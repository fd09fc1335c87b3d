// The replicated order book (examples/orderbook/03_replicated_orderbook_service.py): orders escrow
// what they offer, are matched against the book in place, and rest in it in price-time order.

module OrderBooks {

  type User = string
  type Token = string
  type Balances = map<User, map<Token, real>>

  datatype Kind = Buy | Sell | Unknown

  datatype Order = Order(user: User, kind: Kind, base: Token, quote: Token, quantity: real, price: real)

  /** An order in the book.  The arrival number is its place in the replicated stream of orders. */
  datatype Resting = Resting(sortIndex: real, order: Order, arrival: nat)

  // ---- Balances ----

  function BalanceOf(balances: Balances, user: User, token: Token): real {
    if user in balances && token in balances[user] then balances[user][token] else 0.0
  }

  function Credit(balances: Balances, user: User, token: Token, amount: real): Balances
    requires user in balances
  {
    balances[user := balances[user][token := BalanceOf(balances, user, token) + amount]]
  }

  /** What a set of users holds of a token. */
  ghost function Held(users: set<User>, balances: Balances, token: Token): real {
    if users == {} then 0.0
    else
      var u :| u in users;
      BalanceOf(balances, u, token) + Held(users - {u}, balances, token)
  }

  lemma {:induction false} HeldSplit(users: set<User>, balances: Balances, token: Token, user: User)
    requires user in users
    ensures Held(users, balances, token) == BalanceOf(balances, user, token) + Held(users - {user}, balances, token)
  {
    var u :| u in users
      && Held(users, balances, token) == BalanceOf(balances, u, token) + Held(users - {u}, balances, token);
    if u != user {
      HeldSplit(users - {u}, balances, token, user);
      HeldSplit(users - {user}, balances, token, u);
      assert users - {u} - {user} == users - {user} - {u};
    }
  }

  lemma {:induction false} HeldFrame(users: set<User>, a: Balances, b: Balances, token: Token)
    requires forall u | u in users :: BalanceOf(a, u, token) == BalanceOf(b, u, token)
    ensures Held(users, a, token) == Held(users, b, token)
  {
    if users != {} {
      var u :| u in users;
      HeldSplit(users, a, token, u);
      HeldSplit(users, b, token, u);
      HeldFrame(users - {u}, a, b, token);
    }
  }

  /** A credit adds its amount to what all users hold of its token, and nothing to any other. */
  lemma CreditHeld(balances: Balances, user: User, token: Token, amount: real, t: Token)
    requires user in balances
    ensures Credit(balances, user, token, amount).Keys == balances.Keys
    ensures Held(balances.Keys, Credit(balances, user, token, amount), t) ==
            Held(balances.Keys, balances, t) + if t == token then amount else 0.0
  {
    var r := Credit(balances, user, token, amount);
    HeldSplit(balances.Keys, balances, t, user);
    HeldSplit(balances.Keys, r, t, user);
    HeldFrame(balances.Keys - {user}, balances, r, t);
  }

  function Cost(price: real, quantity: real): real { price * quantity }

  // ---- Escrow ----

  /** What an open order has set aside of a token: a buy its price times quantity, a sell its quantity. */
  function Escrow(o: Order, token: Token): real {
    if o.kind == Buy && o.quote == token then Cost(o.price, o.quantity)
    else if o.kind == Sell && o.base == token then o.quantity
    else 0.0
  }

  ghost function EscrowTo(book: seq<Resting>, n: nat, token: Token): real
    requires n <= |book|
  {
    if n == 0 then 0.0 else EscrowTo(book, n - 1, token) + Escrow(book[n - 1].order, token)
  }

  ghost function BookEscrow(book: seq<Resting>, token: Token): real {
    EscrowTo(book, |book|, token)
  }

  lemma {:induction false} EscrowPrefix(a: seq<Resting>, b: seq<Resting>, n: nat, token: Token)
    requires n <= |a| && n <= |b| && forall i | 0 <= i < n :: a[i] == b[i]
    ensures EscrowTo(a, n, token) == EscrowTo(b, n, token)
  {
    if n > 0 {
      EscrowPrefix(a, b, n - 1, token);
    }
  }

  lemma {:induction false} EscrowConcat(a: seq<Resting>, b: seq<Resting>, n: nat, token: Token)
    requires n <= |b|
    ensures EscrowTo(a + b, |a| + n, token) == BookEscrow(a, token) + EscrowTo(b, n, token)
  {
    if n == 0 {
      EscrowPrefix(a + b, a, |a|, token);
    } else {
      EscrowConcat(a, b, n - 1, token);
      assert (a + b)[|a| + n - 1] == b[n - 1];
    }
  }

  lemma EscrowOfThree(a: seq<Resting>, b: seq<Resting>, c: seq<Resting>, token: Token)
    ensures BookEscrow(a + b + c, token) == BookEscrow(a, token) + BookEscrow(b, token) + BookEscrow(c, token)
  {
    EscrowConcat(a + b, c, |c|, token);
    EscrowConcat(a, b, |b|, token);
  }

  /** Replacing a stretch of the book by another changes the escrow by the difference. */
  lemma EscrowReplaced(book: seq<Resting>, i: nat, j: nat, middle: seq<Resting>, token: Token)
    requires i <= j <= |book|
    ensures BookEscrow(book[..i] + middle + book[j..], token) ==
            BookEscrow(book, token) - BookEscrow(book[i..j], token) + BookEscrow(middle, token)
  {
    assert book == book[..i] + book[i..j] + book[j..];
    EscrowOfThree(book[..i], book[i..j], book[j..], token);
    EscrowOfThree(book[..i], middle, book[j..], token);
  }

  // ---- Matching ----

  function Min(a: real, b: real): real { if a <= b then a else b }

  /** The opposite side of the same pair by somebody else, at an acceptable price. */
  predicate Matches(existing: Order, taker: Order) {
    && existing.user != taker.user
    && existing.base == taker.base && existing.quote == taker.quote
    && existing.kind != taker.kind
    && ((taker.kind == Buy && existing.price <= taker.price) || (taker.kind == Sell && existing.price >= taker.price))
  }

  function Buyer(taker: Order, maker: Order): Order { if taker.kind == Buy then taker else maker }

  function Seller(taker: Order, maker: Order): Order { if taker.kind == Buy then maker else taker }

  /** Both parties get what they were promised: the buyer base tokens, the seller the price in quote tokens. */
  function Settled(balances: Balances, buyer: Order, seller: Order, quantity: real, total: real): Balances
    requires buyer.user in balances && seller.user in balances
  {
    Credit(Credit(balances, buyer.user, buyer.base, quantity), seller.user, buyer.quote, total)
  }

  /** Balances, book, and an order that is being matched. */
  datatype Market = Market(balances: Balances, book: seq<Resting>, taker: Order) {

    ghost predicate UsersKnown() {
      taker.user in balances && forall i :: 0 <= i < |book| ==> book[i].order.user in balances
    }

    /** A trade with the order at position i. */
    function Traded(i: nat): (m: Market)
      requires i < |book| && taker.user in balances && book[i].order.user in balances
      ensures m.balances.Keys == balances.Keys && |m.book| <= |book|
      ensures m.taker == taker.(quantity := m.taker.quantity)
    {
      var maker := book[i].order;
      var q := Min(taker.quantity, maker.quantity);
      var left := maker.quantity - q;
      var buyer, seller := Buyer(taker, maker), Seller(taker, maker);
      Market(Settled(balances, buyer, seller, q, Cost(buyer.price, q)),
             if left == 0.0 then book[..i] + book[i + 1..] else book[i := book[i].(order := maker.(quantity := left))],
             taker.(quantity := taker.quantity - q))
    }

    /** Where matching continues after position i, if it does. */
    function Next(i: nat): int
      requires i < |book|
    {
      if book[i].order.quantity - Min(taker.quantity, book[i].order.quantity) == 0.0 then i else i + 1
    }

    /** All there is of a token: on balances, in the book's escrow, and in the taker's. */
    ghost function Worth(token: Token): real {
      Held(balances.Keys, balances, token) + BookEscrow(book, token) + Escrow(taker, token)
    }
  }

  /** The matching loop from position i on. */
  function Matched(m: Market, i: nat): (r: Market)
    requires i <= |m.book| && m.UsersKnown()
    ensures r.UsersKnown() && r.balances.Keys == m.balances.Keys
    ensures r.taker == m.taker.(quantity := r.taker.quantity)
    decreases |m.book| - i
  {
    if i == |m.book| then m
    else if !Matches(m.book[i].order, m.taker) then Matched(m, i + 1)
    else
      var t := m.Traded(i);
      if t.taker.quantity == 0.0 then t else Matched(t, m.Next(i))
  }

  // ---- The book ----

  function SortPrice(o: Order): real {
    if o.kind == Buy then -o.price else o.price
  }

  predicate RestingSound(r: Resting) {
    (r.order.kind == Buy || r.order.kind == Sell) && r.order.quantity > 0.0 && r.sortIndex == SortPrice(r.order)
  }

  /** Better price first, then older first. */
  ghost predicate Before(book: seq<Resting>, i: nat, j: nat)
    requires i < |book| && j < |book|
  {
    book[i].sortIndex < book[j].sortIndex ||
        (book[i].sortIndex == book[j].sortIndex && book[i].arrival < book[j].arrival)
  }

  ghost predicate Apart(book: seq<Resting>, i: nat, j: nat)
    requires i < |book| && j < |book|
  {
    !Matches(book[i].order, book[j].order)
  }

  /** Open quantities only, in price-time order, and nothing left that could be traded. */
  ghost predicate BookSound(book: seq<Resting>) {
    && (forall i :: 0 <= i < |book| ==> RestingSound(book[i]))
    && (forall i, j :: 0 <= i < j < |book| ==> Before(book, i, j))
    && (forall i, j :: 0 <= i < |book| && 0 <= j < |book| ==> Apart(book, i, j))
  }

  /** b is a with some entries left out and some quantities changed. */
  ghost predicate Thinned(a: seq<Resting>, b: seq<Resting>, at: seq<int>) {
    && |at| == |b|
    && (forall k :: 0 <= k < |b| ==> 0 <= at[k] < |a| && SameButQuantity(a[at[k]], b[k]))
    && (forall k, l :: 0 <= k < l < |b| ==> at[k] < at[l])
  }

  predicate SameButQuantity(a: Resting, b: Resting) {
    a.(order := a.order.(quantity := 0.0)) == b.(order := b.order.(quantity := 0.0))
  }

  lemma ThinnedSound(a: seq<Resting>, b: seq<Resting>, at: seq<int>)
    requires BookSound(a) && Thinned(a, b, at) && forall k | 0 <= k < |b| :: b[k].order.quantity > 0.0
    ensures BookSound(b)
  {
    forall k | 0 <= k < |b|
      ensures RestingSound(b[k])
    {
      assert RestingSound(a[at[k]]);
    }
    forall k, l | 0 <= k < l < |b|
      ensures Before(b, k, l)
    {
      assert Before(a, at[k], at[l]);
    }
    forall k, l | 0 <= k < |b| && 0 <= l < |b|
      ensures Apart(b, k, l)
    {
      assert Apart(a, at[k], at[l]);
    }
  }

  /** A trade keeps the book sound. */
  lemma TradedSound(m: Market, i: nat)
    requires i < |m.book| && m.UsersKnown() && BookSound(m.book)
    ensures BookSound(m.Traded(i).book)
  {
    var at := TradedThinned(m, i);
    ThinnedSound(m.book, m.Traded(i).book, at);
  }

  /** At most the order that was traded with is left out, and only its quantity changes. */
  lemma TradedThinned(m: Market, i: nat) returns (at: seq<int>)
    requires i < |m.book| && m.UsersKnown() && BookSound(m.book)
    ensures Thinned(m.book, m.Traded(i).book, at)
    ensures forall k | 0 <= k < |m.Traded(i).book| :: m.Traded(i).book[k].order.quantity > 0.0
  {
    var a, b := m.book, m.Traded(i).book;
    assert forall k | 0 <= k < |a| :: RestingSound(a[k]);
    at := seq(|b|, k => if |b| == |a| || k < i then k else k + 1);
  }

  lemma {:induction false} MatchedSound(m: Market, i: nat)
    requires i <= |m.book| && m.UsersKnown() && BookSound(m.book)
    ensures BookSound(Matched(m, i).book)
    decreases |m.book| - i
  {
    if i < |m.book| {
      if Matches(m.book[i].order, m.taker) {
        TradedSound(m, i);
        if m.Traded(i).taker.quantity != 0.0 {
          MatchedSound(m.Traded(i), m.Next(i));
        }
      } else {
        MatchedSound(m, i + 1);
      }
    }
  }

  ghost predicate NoneMatches(book: seq<Resting>, n: nat, taker: Order)
    requires n <= |book|
  {
    forall j :: 0 <= j < n ==> !Matches(book[j].order, taker)
  }

  /** When something of the taker is left, nothing in the book matches it any more. */
  lemma {:induction false} MatchedOut(m: Market, i: nat)
    requires i <= |m.book| && m.UsersKnown() && NoneMatches(m.book, i, m.taker)
    ensures var r := Matched(m, i); r.taker.quantity != 0.0 ==> NoneMatches(r.book, |r.book|, r.taker)
    decreases |m.book| - i
  {
    if i < |m.book| {
      if Matches(m.book[i].order, m.taker) {
        var t := m.Traded(i);
        if t.taker.quantity != 0.0 {
          assert forall j | 0 <= j < i :: t.book[j] == m.book[j];
          MatchedOut(t, m.Next(i));
        }
      } else {
        MatchedOut(m, i + 1);
      }
    }
  }

  // ---- Conservation ----

  lemma SettledHeld(balances: Balances, buyer: Order, seller: Order, q: real, total: real, token: Token)
    requires buyer.user in balances && seller.user in balances
    ensures var r := Settled(balances, buyer, seller, q, total);
      && r.Keys == balances.Keys
      && Held(r.Keys, r, token) == Held(balances.Keys, balances, token)
                                   + (if token == buyer.base then q else 0.0)
                                    + (if token == buyer.quote then total else 0.0)
  {
    CreditHeld(balances, buyer.user, buyer.base, q, token);
    CreditHeld(Credit(balances, buyer.user, buyer.base, q), seller.user, buyer.quote, total, token);
  }

  /** What a trade takes out of an order's escrow. */
  lemma EscrowReduced(o: Order, q: real, token: Token)
    requires o.kind == Buy || o.kind == Sell
    ensures Escrow(o.(quantity := o.quantity - q), token) ==
            Escrow(o, token) - (if o.kind == Buy && token == o.quote then Cost(o.price, q)
                                else if o.kind == Sell && token == o.base then q else 0.0)
  {
    assert o.price * (o.quantity - q) == o.price * o.quantity - o.price * q;
  }

  lemma OneEscrow(r: Resting, token: Token)
    ensures BookEscrow([r], token) == Escrow(r.order, token)
  {
    assert EscrowTo([r], 1, token) == EscrowTo([r], 0, token) + Escrow([r][0].order, token);
  }

  lemma TradedEscrow(m: Market, i: nat, token: Token)
    requires i < |m.book| && m.UsersKnown()
    ensures var maker := m.book[i].order;
      var q := Min(m.taker.quantity, maker.quantity);
      BookEscrow(m.Traded(i).book, token) ==
      BookEscrow(m.book, token) - Escrow(maker, token) + Escrow(maker.(quantity := maker.quantity - q), token)
  {
    var maker := m.book[i].order;
    var left := maker.quantity - Min(m.taker.quantity, maker.quantity);
    var r := m.book[i].(order := maker.(quantity := left));
    assert m.book[i..i + 1] == [m.book[i]];
    OneEscrow(m.book[i], token);
    OneEscrow(r, token);
    if left == 0.0 {
      EscrowReplaced(m.book, i, i + 1, [], token);
      assert m.book[..i] + [] + m.book[i + 1..] == m.book[..i] + m.book[i + 1..];
      assert Escrow(r.order, token) == 0.0;
    } else {
      EscrowReplaced(m.book, i, i + 1, [r], token);
      assert m.book[..i] + [r] + m.book[i + 1..] == m.book[i := r];
    }
  }

  /** A trade conserves every token: what leaves escrow arrives on a balance. */
  lemma TradeConserves(m: Market, i: nat, token: Token)
    requires i < |m.book| && m.UsersKnown() && Matches(m.book[i].order, m.taker)
    requires m.book[i].order.kind == Buy || m.book[i].order.kind == Sell
    ensures m.Traded(i).Worth(token) == m.Worth(token)
  {
    var maker := m.book[i].order;
    var q := Min(m.taker.quantity, maker.quantity);
    var buyer, seller := Buyer(m.taker, maker), Seller(m.taker, maker);
    SettledHeld(m.balances, buyer, seller, q, Cost(buyer.price, q), token);
    TradedEscrow(m, i, token);
    EscrowReduced(m.taker, q, token);
    EscrowReduced(maker, q, token);
  }

  lemma {:induction false} MatchingConserves(m: Market, i: nat, token: Token)
    requires i <= |m.book| && m.UsersKnown() && BookSound(m.book)
    ensures Matched(m, i).Worth(token) == m.Worth(token)
    decreases |m.book| - i
  {
    if i < |m.book| {
      if Matches(m.book[i].order, m.taker) {
        assert RestingSound(m.book[i]);
        TradeConserves(m, i, token);
        TradedSound(m, i);
        if m.Traded(i).taker.quantity != 0.0 {
          MatchingConserves(m.Traded(i), m.Next(i), token);
        }
      } else {
        MatchingConserves(m, i + 1, token);
      }
    }
  }

  // ---- Who gets what ----

  /** A trade gives the buyer the base tokens and the seller the buyer's price for them, and changes nobody
      else's balance. */
  lemma TradeDelivers(m: Market, i: nat, user: User, token: Token)
    requires i < |m.book| && m.UsersKnown() && Matches(m.book[i].order, m.taker)
    ensures var maker := m.book[i].order;
      var q, buyer, seller := Min(m.taker.quantity, maker.quantity), Buyer(m.taker, maker), Seller(m.taker, maker);
      BalanceOf(m.Traded(i).balances, user, token) == BalanceOf(m.balances, user, token)
        + (if user == buyer.user && token == buyer.base then q else 0.0)
        + (if user == seller.user && token == seller.quote then Cost(buyer.price, q) else 0.0)
  {
  }

  /** A buying taker ends up with exactly the base tokens its order was filled by. */
  lemma {:induction false} BuyerReceives(m: Market, i: nat)
    requires i <= |m.book| && m.UsersKnown() && m.taker.kind == Buy
    ensures var r := Matched(m, i);
      BalanceOf(r.balances, m.taker.user, m.taker.base) ==
      BalanceOf(m.balances, m.taker.user, m.taker.base) + (m.taker.quantity - r.taker.quantity)
    decreases |m.book| - i
  {
    if i < |m.book| {
      if Matches(m.book[i].order, m.taker) {
        TradeDelivers(m, i, m.taker.user, m.taker.base);
        if m.Traded(i).taker.quantity != 0.0 {
          BuyerReceives(m.Traded(i), m.Next(i));
        }
      } else {
        BuyerReceives(m, i + 1);
      }
    }
  }

  // ---- Price-time priority ----

  /** The open quantity of matching orders among the first n. */
  ghost function Ahead(book: seq<Resting>, taker: Order, n: nat): real
    requires n <= |book|
  {
    if n == 0 then 0.0
    else Ahead(book, taker, n - 1) + if Matches(book[n - 1].order, taker) then book[n - 1].order.quantity else 0.0
  }

  /** What the order at position j has to contribute: what is left for it, but not more than it has. */
  ghost function Taken(book: seq<Resting>, taker: Order, j: nat): real
    requires j < |book|
  {
    if !Matches(book[j].order, taker) || taker.quantity <= Ahead(book, taker, j) then 0.0
    else Min(taker.quantity - Ahead(book, taker, j), book[j].order.quantity)
  }

  /** The first n orders without what they contribute. */
  ghost function Survivors(book: seq<Resting>, taker: Order, n: nat): seq<Resting>
    requires n <= |book|
  {
    if n == 0 then []
    else
      var r := book[n - 1];
      var left := r.order.quantity - Taken(book, taker, n - 1);
      Survivors(book, taker, n - 1) + if left == 0.0 then [] else [r.(order := r.order.(quantity := left))]
  }

  ghost predicate Open(book: seq<Resting>) {
    forall i :: 0 <= i < |book| ==> book[i].order.quantity > 0.0
  }

  lemma {:induction false} AheadGrows(book: seq<Resting>, taker: Order, i: nat, j: nat)
    requires Open(book) && i <= j <= |book|
    ensures Ahead(book, taker, i) <= Ahead(book, taker, j)
    ensures i < j && Matches(book[i].order, taker) ==>
              Ahead(book, taker, i) + book[i].order.quantity <= Ahead(book, taker, j)
    decreases j
  {
    if i < j {
      AheadGrows(book, taker, i, j - 1);
    }
  }

  /** Nobody is filled before those ahead are filled completely. */
  lemma PriorityRespected(book: seq<Resting>, taker: Order, i: nat, j: nat)
    requires Open(book) && i < j < |book| && Matches(book[i].order, taker)
    requires Taken(book, taker, j) > 0.0
    ensures Taken(book, taker, i) == book[i].order.quantity
  {
    AheadGrows(book, taker, i, j);
  }

  /** So of two orders that match, the one at the better price for the taker is filled first. */
  lemma BetterPriceFirst(book: seq<Resting>, taker: Order, i: nat, j: nat)
    requires BookSound(book) && Open(book) && i < |book| && j < |book|
    requires Matches(book[i].order, taker) && Matches(book[j].order, taker) && Taken(book, taker, j) > 0.0
    requires if taker.kind == Buy then book[i].order.price < book[j].order.price
             else book[i].order.price > book[j].order.price
    ensures Taken(book, taker, i) == book[i].order.quantity
  {
    assert RestingSound(book[i]) && RestingSound(book[j]);
    assert j < i ==> Before(book, j, i);
    PriorityRespected(book, taker, i, j);
  }

  lemma {:induction false} RestUntouched(book: seq<Resting>, taker: Order, n: nat, k: nat)
    requires Open(book) && n <= k <= |book| && taker.quantity <= Ahead(book, taker, n)
    ensures Survivors(book, taker, k) == Survivors(book, taker, n) + book[n..k]
    decreases k
  {
    if n < k {
      RestUntouched(book, taker, n, k - 1);
      AheadGrows(book, taker, n, k - 1);
      assert book[n..k] == book[n..k - 1] + [book[k - 1]];
      assert book[k - 1].(order := book[k - 1].order.(quantity := book[k - 1].order.quantity)) == book[k - 1];
    }
  }

  lemma NothingLeft(book: seq<Resting>, taker: Order, n: nat)
    requires Open(book) && n <= |book| && taker.quantity <= Ahead(book, taker, n)
    ensures Survivors(book, taker, |book|) == Survivors(book, taker, n) + book[n..]
    ensures taker.quantity <= Ahead(book, taker, |book|)
  {
    RestUntouched(book, taker, n, |book|);
    AheadGrows(book, taker, n, |book|);
    assert book[n..|book|] == book[n..];
  }

  /** The matching loop, in the middle of its way through the book, has served exactly those it has passed. */
  lemma {:induction false} PriorityFrom(book: seq<Resting>, taker: Order, m: Market, n: nat)
    requires Open(book) && n <= |book| && m.UsersKnown()
    requires m.book == Survivors(book, taker, n) + book[n..]
    requires m.taker == taker.(quantity := taker.quantity - Ahead(book, taker, n)) && m.taker.quantity > 0.0
    ensures var r := Matched(m, |Survivors(book, taker, n)|);
      && r.book == Survivors(book, taker, |book|)
      && r.taker.quantity ==
         if taker.quantity > Ahead(book, taker, |book|) then taker.quantity - Ahead(book, taker, |book|) else 0.0
    decreases |book| - n
  {
    var done := Survivors(book, taker, n);
    var i := |done|;
    if n == |book| {
      assert m.book == done;
    } else {
      assert m.book[i] == book[n];
      if Matches(book[n].order, m.taker) {
        var t := m.Traded(i);
        PassedTrade(book, taker, m, n);
        if t.taker.quantity == 0.0 {
          NothingLeft(book, taker, n + 1);
        } else {
          PriorityFrom(book, taker, t, n + 1);
        }
      } else {
        PassedOver(book, taker, m, n);
        PriorityFrom(book, taker, m, n + 1);
      }
    }
  }

  /** So matching serves the book in its order: best price first, then oldest first, until the taker has enough. */
  lemma MatchedByPriority(m: Market)
    requires m.UsersKnown() && Open(m.book) && m.taker.quantity > 0.0
    ensures var r := Matched(m, 0);
      && r.book == Survivors(m.book, m.taker, |m.book|)
      && m.taker.quantity - r.taker.quantity == Min(m.taker.quantity, Ahead(m.book, m.taker, |m.book|))
  {
    assert Survivors(m.book, m.taker, 0) + m.book[0..] == m.book;
    PriorityFrom(m.book, m.taker, m, 0);
  }

  lemma PassedOver(book: seq<Resting>, taker: Order, m: Market, n: nat)
    requires Open(book) && n < |book|
    requires m.book == Survivors(book, taker, n) + book[n..] && !Matches(book[n].order, taker)
    ensures m.book == Survivors(book, taker, n + 1) + book[n + 1..]
    ensures |Survivors(book, taker, n + 1)| == |Survivors(book, taker, n)| + 1
    ensures Ahead(book, taker, n + 1) == Ahead(book, taker, n)
  {
    var r := book[n];
    assert r.(order := r.order.(quantity := r.order.quantity)) == r;
    assert book[n..] == [r] + book[n + 1..];
  }

  lemma PassedTrade(book: seq<Resting>, taker: Order, m: Market, n: nat)
    requires Open(book) && n < |book| && m.UsersKnown()
    requires m.book == Survivors(book, taker, n) + book[n..] && Matches(book[n].order, taker)
    requires m.taker == taker.(quantity := taker.quantity - Ahead(book, taker, n)) && m.taker.quantity > 0.0
    ensures var i, next := |Survivors(book, taker, n)|, Survivors(book, taker, n + 1);
      && m.book[i] == book[n]
      && m.Traded(i).book == next + book[n + 1..]
      && m.Next(i) == |next|
      && m.Traded(i).taker.quantity ==
         (if taker.quantity > Ahead(book, taker, n + 1) then taker.quantity - Ahead(book, taker, n + 1) else 0.0)
  {
    var done, i := Survivors(book, taker, n), |Survivors(book, taker, n)|;
    assert m.book[i] == book[n];
    assert m.book[..i] == done && m.book[i + 1..] == book[n + 1..];
  }

  // ---- Solvency ----

  ghost predicate Solvent(balances: Balances) {
    forall u, t :: BalanceOf(balances, u, t) >= 0.0
  }

  ghost predicate PricesPositive(book: seq<Resting>) {
    forall i :: 0 <= i < |book| ==> book[i].order.price > 0.0
  }

  lemma CreditSolvent(balances: Balances, user: User, token: Token, amount: real)
    requires user in balances && Solvent(balances) && BalanceOf(balances, user, token) + amount >= 0.0
    ensures Solvent(Credit(balances, user, token, amount))
  {
    var r := Credit(balances, user, token, amount);
    forall u, t
      ensures BalanceOf(r, u, t) >= 0.0
    {
      assert BalanceOf(balances, u, t) >= 0.0;
    }
  }

  lemma CostNonNegative(price: real, quantity: real)
    requires price >= 0.0 && quantity >= 0.0
    ensures Cost(price, quantity) >= 0.0
  {
  }

  lemma TradeSolvent(m: Market, i: nat)
    requires i < |m.book| && m.UsersKnown() && Open(m.book) && PricesPositive(m.book) && Solvent(m.balances)
    requires m.taker.quantity >= 0.0 && m.taker.price > 0.0
    ensures var t := m.Traded(i);
      Open(t.book) && PricesPositive(t.book) && Solvent(t.balances) && t.taker.quantity >= 0.0
  {
    var maker := m.book[i].order;
    var q, buyer, seller := Min(m.taker.quantity, maker.quantity), Buyer(m.taker, maker), Seller(m.taker, maker);
    CostNonNegative(buyer.price, q);
    assert BalanceOf(m.balances, buyer.user, buyer.base) >= 0.0;
    CreditSolvent(m.balances, buyer.user, buyer.base, q);
    var one := Credit(m.balances, buyer.user, buyer.base, q);
    assert BalanceOf(one, seller.user, buyer.quote) >= 0.0;
    CreditSolvent(one, seller.user, buyer.quote, Cost(buyer.price, q));
  }

  /** No balance goes negative in the whole matching loop. */
  lemma {:induction false} MatchedSolvent(m: Market, i: nat)
    requires i <= |m.book| && m.UsersKnown() && Open(m.book) && PricesPositive(m.book) && Solvent(m.balances)
    requires m.taker.quantity >= 0.0 && m.taker.price > 0.0
    ensures Solvent(Matched(m, i).balances) && PricesPositive(Matched(m, i).book) && Matched(m, i).taker.quantity >= 0.0
    decreases |m.book| - i
  {
    if i < |m.book| {
      if Matches(m.book[i].order, m.taker) {
        TradeSolvent(m, i);
        if m.Traded(i).taker.quantity != 0.0 {
          MatchedSolvent(m.Traded(i), m.Next(i));
        }
      } else {
        MatchedSolvent(m, i + 1);
      }
    }
  }

  // ---- Who is left alone ----

  /** The same user, another pair, the same side, or a price that is not good enough. */
  predicate NoTrade(existing: Order, taker: Order) {
    || existing.user == taker.user
    || existing.base != taker.base || existing.quote != taker.quote
    || existing.kind == taker.kind
    || (taker.kind == Buy && existing.price > taker.price)
    || (taker.kind == Sell && existing.price < taker.price)
  }

  /** Matching leaves such an order in the book as it is. */
  lemma {:induction false} LeftAlone(m: Market, i: nat, r: Resting)
    requires i <= |m.book| && m.UsersKnown() && r in m.book && NoTrade(r.order, m.taker)
    ensures r in Matched(m, i).book
    decreases |m.book| - i
  {
    if i < |m.book| {
      if Matches(m.book[i].order, m.taker) {
        StillThere(m, i, r);
        if m.Traded(i).taker.quantity != 0.0 {
          LeftAlone(m.Traded(i), m.Next(i), r);
        }
      } else {
        LeftAlone(m, i + 1, r);
      }
    }
  }

  lemma StillThere(m: Market, i: nat, r: Resting)
    requires i < |m.book| && m.UsersKnown() && r in m.book && r != m.book[i]
    ensures r in m.Traded(i).book
  {
    var j :| 0 <= j < |m.book| && m.book[j] == r;
    var b := m.Traded(i).book;
    assert if |b| == |m.book| || j < i then b[j] == r else b[j - 1] == r;
  }

  // ---- Who is debited ----

  lemma TradeCredits(m: Market, i: nat, user: User, token: Token)
    requires i < |m.book| && m.UsersKnown() && Open(m.book) && PricesPositive(m.book)
    requires m.taker.quantity >= 0.0 && m.taker.price > 0.0
    ensures BalanceOf(m.Traded(i).balances, user, token) >= BalanceOf(m.balances, user, token)
  {
    var maker := m.book[i].order;
    var q, buyer := Min(m.taker.quantity, maker.quantity), Buyer(m.taker, maker);
    CostNonNegative(buyer.price, q);
  }

  /** Matching takes nothing from anybody. */
  lemma {:induction false} MatchedCredits(m: Market, i: nat, user: User, token: Token)
    requires i <= |m.book| && m.UsersKnown() && Open(m.book) && PricesPositive(m.book) && Solvent(m.balances)
    requires m.taker.quantity >= 0.0 && m.taker.price > 0.0
    ensures BalanceOf(Matched(m, i).balances, user, token) >= BalanceOf(m.balances, user, token)
    decreases |m.book| - i
  {
    if i < |m.book| {
      if Matches(m.book[i].order, m.taker) {
        TradeSolvent(m, i);
        TradeCredits(m, i, user, token);
        if m.Traded(i).taker.quantity != 0.0 {
          MatchedCredits(m.Traded(i), m.Next(i), user, token);
        }
      } else {
        MatchedCredits(m, i + 1, user, token);
      }
    }
  }

  // ---- Placing an order ----

  /** Done, refused with an error in the log, or a KeyError. */
  datatype Outcome = Placed | Refused | KeyError

  function OfferedToken(o: Order): Token { if o.kind == Buy then o.quote else o.base }

  function OfferedAmount(o: Order): real { if o.kind == Buy then Cost(o.price, o.quantity) else o.quantity }

  /** An order needs a valid signature and the balance it offers; without an entry for the token a
      funded order can only be one for nothing or less, and the debit fails. */
  function Judge(balances: Balances, o: Order, signed: bool): Outcome {
    if !signed || o.kind == Unknown || BalanceOf(balances, o.user, OfferedToken(o)) < OfferedAmount(o) then Refused
    else if o.user in balances && OfferedToken(o) in balances[o.user] then Placed
    else KeyError
  }

  /** The user of an order to buy or sell has an entry for what it offers, and that much in it. */
  ghost predicate HoldsOffer(balances: Balances, o: Order) {
    && o.user in balances
    && match o.kind
       case Buy => o.quote in balances[o.user] && balances[o.user][o.quote] >= o.quantity * o.price
       case Sell => o.base in balances[o.user] && balances[o.user][o.base] >= o.quantity
       case Unknown => false
  }

  /** The user has no entry for the token that is offered, and nothing, or less, is offered of it. */
  ghost predicate OffersUnheldNothing(balances: Balances, o: Order) {
    match o.kind
    case Buy => (o.user in balances ==> o.quote !in balances[o.user]) && o.quantity * o.price <= 0.0
    case Sell => (o.user in balances ==> o.base !in balances[o.user]) && o.quantity <= 0.0
    case Unknown => false
  }

  /** An order is placed exactly if it is signed and its user holds what it offers; the debit fails exactly if a
      signed order offers nothing, or less, of a token without an entry. */
  lemma PlacedExactly(balances: Balances, o: Order, signed: bool)
    ensures Judge(balances, o, signed) == Placed <==> signed && HoldsOffer(balances, o)
    ensures Judge(balances, o, signed) == KeyError <==> signed && OffersUnheldNothing(balances, o)
    ensures !signed ==> Judge(balances, o, signed) == Refused
  {
  }

  /** Where a new order goes: behind the last one that is not worse in price. */
  function InsertAt(book: seq<Resting>, sortIndex: real, n: nat): (p: nat)
    requires n <= |book|
    ensures p <= n
  {
    if n == 0 || book[n - 1].sortIndex <= sortIndex then n else InsertAt(book, sortIndex, n - 1)
  }

  function Inserted(book: seq<Resting>, r: Resting): seq<Resting> {
    var p := InsertAt(book, r.sortIndex, |book|);
    book[..p] + [r] + book[p..]
  }

  ghost predicate UsersIn(balances: Balances, book: seq<Resting>) {
    forall i :: 0 <= i < |book| ==> book[i].order.user in balances
  }

  function Debited(balances: Balances, o: Order): Balances
    requires o.user in balances
  {
    Credit(balances, o.user, OfferedToken(o), -OfferedAmount(o))
  }

  function Escrowed(balances: Balances, book: seq<Resting>, o: Order): (m: Market)
    requires o.user in balances && UsersIn(balances, book)
    ensures m.UsersKnown()
  {
    Market(Debited(balances, o), book, o)
  }

  /** Escrow, match, and let what is left rest in the book. */
  function Applied(balances: Balances, book: seq<Resting>, o: Order, arrival: nat): (Balances, seq<Resting>)
    requires o.user in balances && UsersIn(balances, book)
  {
    var m := Matched(Escrowed(balances, book, o), 0);
    (m.balances, if m.taker.quantity > 0.0 then Inserted(m.book, Resting(SortPrice(m.taker), m.taker, arrival))
     else m.book)
  }

  ghost function Total(balances: Balances, book: seq<Resting>, token: Token): real {
    Held(balances.Keys, balances, token) + BookEscrow(book, token)
  }

  /** Nothing in the book matches: a negative order stays as it is; otherwise its first trade uses it up. */
  lemma {:induction false} MatchedNegative(m: Market, i: nat)
    requires i <= |m.book| && m.UsersKnown() && Open(m.book) && m.taker.quantity < 0.0 &&
             NoneMatches(m.book, i, m.taker)
    ensures if NoneMatches(m.book, |m.book|, m.taker) then Matched(m, i) == m else Matched(m, i).taker.quantity == 0.0
    decreases |m.book| - i
  {
    if i < |m.book| && !Matches(m.book[i].order, m.taker) {
      MatchedNegative(m, i + 1);
    }
  }

  lemma {:induction false} MatchedRemains(m: Market, i: nat)
    requires i <= |m.book| && m.UsersKnown() && m.taker.quantity >= 0.0
    ensures Matched(m, i).taker.quantity >= 0.0
    decreases |m.book| - i
  {
    if i < |m.book| {
      if Matches(m.book[i].order, m.taker) {
        if m.Traded(i).taker.quantity != 0.0 {
          MatchedRemains(m.Traded(i), m.Next(i));
        }
      } else {
        MatchedRemains(m, i + 1);
      }
    }
  }

  /** An order with a negative quantity that meets no match: its escrow is dropped. */
  ghost predicate Dropped(book: seq<Resting>, o: Order) {
    o.quantity < 0.0 && NoneMatches(book, |book|, o)
  }

  /** Every token's total changes by the escrow that is dropped, so without that it does not change. */
  lemma ApplyConserves(balances: Balances, book: seq<Resting>, o: Order, arrival: nat, token: Token)
    requires Judge(balances, o, true) == Placed && UsersIn(balances, book) && BookSound(book)
    ensures var (balances', book') := Applied(balances, book, o, arrival);
      Total(balances', book', token) == Total(balances, book, token) -
          if Dropped(book, o) then Escrow(o, token) else 0.0
  {
    var m := Escrowed(balances, book, o);
    var r := Matched(m, 0);
    CreditHeld(balances, o.user, OfferedToken(o), -OfferedAmount(o), token);
    assert m.Worth(token) == Total(balances, book, token);
    MatchingConserves(m, 0, token);
    Leftover(m, token);
    if r.taker.quantity > 0.0 {
      var rest := Resting(SortPrice(r.taker), r.taker, arrival);
      var p := InsertAt(r.book, rest.sortIndex, |r.book|);
      EscrowReplaced(r.book, p, p, [rest], token);
      OneEscrow(rest, token);
      assert r.book[p..p] == [];
    }
  }

  lemma Leftover(m: Market, token: Token)
    requires m.UsersKnown() && BookSound(m.book)
    ensures var r := Matched(m, 0);
      r.taker.quantity <= 0.0 ==>
        Escrow(r.taker, token) == if Dropped(m.book, m.taker) then Escrow(m.taker, token) else 0.0
    ensures Dropped(m.book, m.taker) ==> Matched(m, 0).taker.quantity <= 0.0
  {
    assert forall i | 0 <= i < |m.book| :: RestingSound(m.book[i]);
    if m.taker.quantity < 0.0 {
      MatchedNegative(m, 0);
    } else {
      MatchedRemains(m, 0);
    }
  }

  /** Negative orders are the only way to change a total: it happens exactly when something of value is dropped. */
  lemma ConservedExactly(balances: Balances, book: seq<Resting>, o: Order, arrival: nat)
    requires Judge(balances, o, true) == Placed && UsersIn(balances, book) && BookSound(book)
    ensures var (balances', book') := Applied(balances, book, o, arrival);
      (forall token :: Total(balances', book', token) == Total(balances, book, token))
      <==> !(Dropped(book, o) && OfferedAmount(o) != 0.0)
  {
    forall token
      ensures var (balances', book') := Applied(balances, book, o, arrival);
        Total(balances', book', token) == Total(balances, book, token) -
            if Dropped(book, o) then Escrow(o, token) else 0.0
    {
      ApplyConserves(balances, book, o, arrival, token);
    }
    assert Escrow(o, OfferedToken(o)) == OfferedAmount(o);
  }

  /** An order to sell minus five tokens credits five tokens that nobody had. */
  lemma NegativeSellMints()
    ensures var balances: Balances := map["alice" := map["ETH" := 1.0]];
      var o := Order("alice", Sell, "ETH", "USDT", -5.0, 1.0);
      && Judge(balances, o, true) == Placed
      && Total(balances, [], "ETH") == 1.0
      && Total(Applied(balances, [], o, 0).0, Applied(balances, [], o, 0).1, "ETH") == 6.0
  {
    var balances: Balances := map["alice" := map["ETH" := 1.0]];
    var o := Order("alice", Sell, "ETH", "USDT", -5.0, 1.0);
    assert Dropped([], o) && BookSound([]);
    ApplyConserves(balances, [], o, 0, "ETH");
    HeldSplit(balances.Keys, balances, "ETH", "alice");
    assert balances.Keys - {"alice"} == {};
  }

  lemma {:induction false} InsertAtMeaning(book: seq<Resting>, x: real, n: nat)
    requires n <= |book| && forall i, j :: 0 <= i < j < |book| ==> Before(book, i, j)
    ensures forall i | 0 <= i < InsertAt(book, x, n) :: book[i].sortIndex <= x
    ensures forall i | InsertAt(book, x, n) <= i < n :: book[i].sortIndex > x
  {
    if n > 0 {
      if book[n - 1].sortIndex <= x {
        forall i | 0 <= i < n - 1
          ensures book[i].sortIndex <= x
        {
          assert Before(book, i, n - 1);
        }
      } else {
        InsertAtMeaning(book, x, n - 1);
      }
    }
  }

  ghost predicate ArrivedBefore(book: seq<Resting>, arrival: nat) {
    forall i :: 0 <= i < |book| ==> book[i].arrival < arrival
  }

  lemma MatchesBothWays(a: Order, b: Order)
    requires (a.kind == Buy || a.kind == Sell) && (b.kind == Buy || b.kind == Sell)
    ensures Matches(a, b) <==> Matches(b, a)
  {
  }

  /** What rests is inserted behind everything of the same price, and the book stays sound. */
  lemma InsertedSound(book: seq<Resting>, r: Resting)
    requires BookSound(book) && ArrivedBefore(book, r.arrival) && RestingSound(r) && NoneMatches(book, |book|, r.order)
    ensures BookSound(Inserted(book, r)) && ArrivedBefore(Inserted(book, r), r.arrival + 1)
  {
    var p, more := InsertAt(book, r.sortIndex, |book|), Inserted(book, r);
    InsertAtMeaning(book, r.sortIndex, |book|);
    var at := seq(|more|, k => if k < p then k else k - 1);
    assert forall k | 0 <= k < |more| && k != p :: more[k] == book[at[k]];
    forall k | 0 <= k < |more|
      ensures RestingSound(more[k])
    {
      assert k != p ==> RestingSound(book[at[k]]);
    }
    forall k, l | 0 <= k < l < |more|
      ensures Before(more, k, l)
    {
      assert k != p && l != p ==> Before(book, at[k], at[l]);
    }
    forall k, l | 0 <= k < |more| && 0 <= l < |more|
      ensures Apart(more, k, l)
    {
      assert k != p && l != p ==> Apart(book, at[k], at[l]);
      if k == p && l != p {
        assert RestingSound(book[at[l]]);
        MatchesBothWays(book[at[l]].order, r.order);
      }
    }
  }

  lemma {:induction false} MatchedArrived(m: Market, i: nat, arrival: nat)
    requires i <= |m.book| && m.UsersKnown() && ArrivedBefore(m.book, arrival)
    ensures ArrivedBefore(Matched(m, i).book, arrival)
    decreases |m.book| - i
  {
    if i < |m.book| {
      if Matches(m.book[i].order, m.taker) {
        if m.Traded(i).taker.quantity != 0.0 {
          MatchedArrived(m.Traded(i), m.Next(i), arrival);
        }
      } else {
        MatchedArrived(m, i + 1, arrival);
      }
    }
  }

  /** Placing an order keeps the book sound: sorted, open quantities only, never crossed. */
  lemma ApplySound(balances: Balances, book: seq<Resting>, o: Order, arrival: nat)
    requires Judge(balances, o, true) == Placed && UsersIn(balances, book) && BookSound(book) &&
             ArrivedBefore(book, arrival)
    ensures var (balances', book') := Applied(balances, book, o, arrival);
      UsersIn(balances', book') && BookSound(book') && ArrivedBefore(book', arrival + 1)
  {
    var m := Escrowed(balances, book, o);
    var r := Matched(m, 0);
    MatchedSound(m, 0);
    MatchedOut(m, 0);
    MatchedArrived(m, 0, arrival);
    if r.taker.quantity > 0.0 {
      InsertedSound(r.book, Resting(SortPrice(r.taker), r.taker, arrival));
    }
  }

  /** With positive quantities and prices no balance goes negative. */
  lemma ApplySolvent(balances: Balances, book: seq<Resting>, o: Order, arrival: nat)
    requires Judge(balances, o, true) == Placed && UsersIn(balances, book) && BookSound(book)
    requires Solvent(balances) && PricesPositive(book) && o.quantity > 0.0 && o.price > 0.0
    ensures var (balances', book') := Applied(balances, book, o, arrival);
      Solvent(balances') && PricesPositive(book')
  {
    CreditSolvent(balances, o.user, OfferedToken(o), -OfferedAmount(o));
    assert forall i | 0 <= i < |book| :: RestingSound(book[i]);
    MatchedSolvent(Escrowed(balances, book, o), 0);
  }

  // ---- Whole runs ----

  /** An order as it comes out of the replicated stream, and whether its signature is valid. */
  datatype Submission = Submission(order: Order, signed: bool)

  /** One submission.  A refused one, or one that ends in a KeyError, leaves everything as it was. */
  ghost function Processed(balances: Balances, book: seq<Resting>, s: Submission, arrival: nat)
    : (Balances, seq<Resting>)
    requires UsersIn(balances, book)
  {
    if Judge(balances, s.order, s.signed) == Placed then Applied(balances, book, s.order, arrival) else (balances, book)
  }

  lemma ProcessedSound(balances: Balances, book: seq<Resting>, s: Submission, arrival: nat)
    requires UsersIn(balances, book) && BookSound(book) && ArrivedBefore(book, arrival)
    ensures var (balances', book') := Processed(balances, book, s, arrival);
      UsersIn(balances', book') && BookSound(book') && ArrivedBefore(book', arrival + 1)
  {
    if Judge(balances, s.order, s.signed) == Placed {
      ApplySound(balances, book, s.order, arrival);
    }
  }

  ghost predicate LedgerSound(balances: Balances, book: seq<Resting>, arrival: nat) {
    UsersIn(balances, book) && BookSound(book) && ArrivedBefore(book, arrival)
  }

  /** states[n] is what the first n submissions make of balances and an empty book. */
  ghost predicate IsRun(balances: Balances, submissions: seq<Submission>, states: seq<(Balances, seq<Resting>)>) {
    && |states| == |submissions| + 1
    && states[0] == (balances, [])
    && (forall n :: 0 <= n < |submissions| ==> Follows(submissions, states, n))
  }

  ghost predicate Follows(submissions: seq<Submission>, states: seq<(Balances, seq<Resting>)>, n: nat)
    requires n < |submissions| && n + 1 < |states|
  {
    UsersIn(states[n].0, states[n].1) ==> states[n + 1] == Processed(states[n].0, states[n].1, submissions[n], n)
  }

  /** The book stays sound over every run, whatever is submitted. */
  lemma {:induction false} RunSound(balances: Balances, submissions: seq<Submission>,
                                    states: seq<(Balances, seq<Resting>)>, n: nat)
    requires IsRun(balances, submissions, states) && n < |states|
    ensures LedgerSound(states[n].0, states[n].1, n)
  {
    if n > 0 {
      RunSound(balances, submissions, states, n - 1);
      assert Follows(submissions, states, n - 1);
      ProcessedSound(states[n - 1].0, states[n - 1].1, submissions[n - 1], n - 1);
    }
  }

  /** So no order to buy ever rests at or above a resting order to sell of another user. */
  lemma NeverCrossed(balances: Balances, submissions: seq<Submission>, states: seq<(Balances, seq<Resting>)>, n: nat,
                     sell: nat, buy: nat)
    requires IsRun(balances, submissions, states) && n < |states|
    requires sell < |states[n].1| && buy < |states[n].1|
    requires var (ask, bid) := (states[n].1[sell].order, states[n].1[buy].order);
      && ask.kind == Sell && bid.kind == Buy && ask.user != bid.user
      && ask.base == bid.base && ask.quote == bid.quote
    ensures states[n].1[sell].order.price > states[n].1[buy].order.price
  {
    RunSound(balances, submissions, states, n);
    assert Apart(states[n].1, sell, buy);
  }

  /** And on each side the better price rests first, at the same price the older order. */
  lemma BestPriceFirst(balances: Balances, submissions: seq<Submission>, states: seq<(Balances, seq<Resting>)>, n: nat,
                       i: nat, j: nat)
    requires IsRun(balances, submissions, states) && n < |states| && i < j < |states[n].1|
    ensures var (a, b) := (states[n].1[i], states[n].1[j]);
      && (a.order.kind == Buy && b.order.kind == Buy ==> a.order.price >= b.order.price)
      && (a.order.kind == Sell && b.order.kind == Sell ==> a.order.price <= b.order.price)
      && (a.order.kind == b.order.kind && a.order.price == b.order.price ==> a.arrival < b.arrival)
  {
    RunSound(balances, submissions, states, n);
    assert RestingSound(states[n].1[i]) && RestingSound(states[n].1[j]) && Before(states[n].1, i, j);
  }

  lemma ProcessedConserves(balances: Balances, book: seq<Resting>, s: Submission, arrival: nat, token: Token)
    requires LedgerSound(balances, book, arrival) && Solvent(balances) && PricesPositive(book)
    requires s.order.quantity > 0.0 && s.order.price > 0.0
    ensures var (balances', book') := Processed(balances, book, s, arrival);
      Total(balances', book', token) == Total(balances, book, token) && Solvent(balances') && PricesPositive(book')
  {
    if Judge(balances, s.order, s.signed) == Placed {
      ApplyConserves(balances, book, s.order, arrival, token);
      ApplySolvent(balances, book, s.order, arrival);
    }
  }

  /** Over every run of orders with positive quantity and price each token's total stays what it was
      at the start, and no balance is ever negative. */
  lemma {:induction false} RunConserves(balances: Balances, submissions: seq<Submission>,
                                        states: seq<(Balances, seq<Resting>)>, n: nat, token: Token)
    requires IsRun(balances, submissions, states) && n < |states| && Solvent(balances)
    requires forall i | 0 <= i < n :: submissions[i].order.quantity > 0.0 && submissions[i].order.price > 0.0
    ensures Total(states[n].0, states[n].1, token) == Total(balances, [], token)
    ensures Solvent(states[n].0) && PricesPositive(states[n].1)
  {
    if n > 0 {
      RunConserves(balances, submissions, states, n - 1, token);
      RunSound(balances, submissions, states, n - 1);
      assert Follows(submissions, states, n - 1);
      ProcessedConserves(states[n - 1].0, states[n - 1].1, submissions[n - 1], n - 1, token);
    }
  }

  lemma AppliedDebits(balances: Balances, book: seq<Resting>, o: Order, arrival: nat, user: User, token: Token)
    requires Judge(balances, o, true) == Placed && UsersIn(balances, book) && BookSound(book)
    requires Solvent(balances) && PricesPositive(book) && o.quantity > 0.0 && o.price > 0.0
    ensures BalanceOf(Applied(balances, book, o, arrival).0, user, token) < BalanceOf(balances, user, token) ==>
              o.user == user && o.kind != Unknown && token == if o.kind == Buy then o.quote else o.base
  {
    CreditSolvent(balances, o.user, OfferedToken(o), -OfferedAmount(o));
    assert forall i | 0 <= i < |book| :: RestingSound(book[i]);
    MatchedCredits(Escrowed(balances, book, o), 0, user, token);
  }

  /** Over every run of orders with positive quantity and price, a step after which a user holds less of a token is a
      signed order of that user which offers that token. */
  lemma OnlyOwnOrdersDebit(balances: Balances, submissions: seq<Submission>, states: seq<(Balances, seq<Resting>)>,
                           n: nat, user: User, token: Token)
    requires IsRun(balances, submissions, states) && n < |submissions| && Solvent(balances)
    requires forall i | 0 <= i <= n :: submissions[i].order.quantity > 0.0 && submissions[i].order.price > 0.0
    requires BalanceOf(states[n + 1].0, user, token) < BalanceOf(states[n].0, user, token)
    ensures var s := submissions[n];
      && s.signed && s.order.user == user
      && s.order.kind != Unknown && token == if s.order.kind == Buy then s.order.quote else s.order.base
  {
    var s := submissions[n];
    RunSound(balances, submissions, states, n);
    RunConserves(balances, submissions, states, n, token);
    assert Follows(submissions, states, n);
    if Judge(states[n].0, s.order, s.signed) == Placed {
      PlacedExactly(states[n].0, s.order, s.signed);
      AppliedDebits(states[n].0, states[n].1, s.order, n, user, token);
    }
  }

  // ---- The service ----

  class OrderBook {
    var balances: Balances
    var book: seq<Resting>
    var arrivals: nat

    ghost predicate Valid()
      reads this
    {
      UsersIn(balances, book) && BookSound(book) && ArrivedBefore(book, arrivals)
    }

    constructor (balances: Balances)
      ensures Valid() && this.balances == balances && book == [] && arrivals == 0
    {
      this.balances, book, arrivals := balances, [], 0;
    }

    /** Escrow what the order offers, match it, and let the rest wait in the book. */
    method ApplyOrder(order: Order, signed: bool) returns (outcome: Outcome)
      requires Valid()
      modifies this
      ensures Valid() && arrivals == old(arrivals) + 1
      ensures outcome == Judge(old(balances), order, signed)
      ensures (balances, book) == Processed(old(balances), old(book), Submission(order, signed), old(arrivals))
      // Placed is exactly a signed order to buy or sell of somebody who holds what it offers; anything else
      // changes nothing.
      ensures outcome == Placed <==> signed && HoldsOffer(old(balances), order)
      ensures outcome == KeyError <==> signed && OffersUnheldNothing(old(balances), order)
      ensures !signed ==> outcome == Refused
      ensures outcome != Placed ==> balances == old(balances) && book == old(book)
    {
      PlacedExactly(balances, order, signed);
      ProcessedSound(balances, book, Submission(order, signed), arrivals);
      ghost var next := Processed(balances, book, Submission(order, signed), arrivals);
      arrivals := arrivals + 1;
      outcome := Check(order, signed);
      if outcome == Placed {
        balances := Debited(balances, order);
        Place(order, arrivals - 1);
      }
      assert balances == next.0 && book == next.1;
    }

    /** The checks that come before the debit, and whether the debit finds the balance. */
    method Check(order: Order, signed: bool) returns (outcome: Outcome)
      ensures outcome == Judge(balances, order, signed)
    {
      if !signed {
        return Refused;
      }
      if order.kind == Unknown {
        return Refused;
      }
      var token, amount := OfferedToken(order), OfferedAmount(order);
      if BalanceOf(balances, order.user, token) < amount {
        return Refused;
      }
      return if order.user in balances && token in balances[order.user] then Placed else KeyError;
    }

    method Place(order: Order, arrival: nat)
      requires order.user in balances && UsersIn(balances, book) && BookSound(book)
      modifies this`balances, this`book
      ensures var m := Matched(Market(old(balances), old(book), order), 0);
        && balances == m.balances
        && book == if m.taker.quantity > 0.0 then Inserted(m.book, Resting(SortPrice(m.taker), m.taker, arrival))
           else m.book
    {
      ghost var m := Matched(Market(balances, book, order), 0);
      MatchedSound(Market(balances, book, order), 0);
      var taker := MatchOrder(order);
      assert m == Market(balances, book, taker);
      if taker.quantity > 0.0 {
        Insort(Resting(if taker.kind == Buy then -taker.price else taker.price, taker, arrival));
      }
    }

    /** Trade with whatever matches, from the front of the book on. */
    method MatchOrder(order: Order) returns (taker: Order)
      requires order.user in balances && UsersIn(balances, book)
      modifies this`balances, this`book
      ensures Market(balances, book, taker) == Matched(Market(old(balances), old(book), order), 0)
    {
      taker := order;
      var i := 0;
      while i < |book|
        invariant 0 <= i <= |book|
        invariant Market(balances, book, taker).UsersKnown()
        invariant Matched(Market(balances, book, taker), i) == Matched(Market(old(balances), old(book), order), 0)
        decreases |book| - i
      {
        var existing := book[i].order;
        if !Matches(existing, taker) {
          i := i + 1;
          continue;
        }
        ghost var before := Market(balances, book, taker);
        var q := Min(taker.quantity, existing.quantity);
        UpdateBalances(taker, existing, q);
        taker := taker.(quantity := taker.quantity - q);
        var left := existing.quantity - q;
        if left == 0.0 {
          book := book[..i] + book[i + 1..];
        } else {
          book := book[i := book[i].(order := existing.(quantity := left))];
        }
        assert Market(balances, book, taker) == before.Traded(i);
        i := if left == 0.0 then i else i + 1;
        if taker.quantity == 0.0 {
          break;
        }
      }
    }

    method UpdateBalances(order1: Order, order2: Order, q: real)
      requires order1.user in balances && order2.user in balances
      modifies this`balances
      ensures var buyer := Buyer(order1, order2);
        balances == Settled(old(balances), buyer, Seller(order1, order2), q, Cost(buyer.price, q))
    {
      var buyer := if order1.kind == Buy then order1 else order2;
      var seller := if order1.kind == Buy then order2 else order1;
      var total := Cost(buyer.price, q);
      var bought := BalanceOf(balances, buyer.user, buyer.base) + q;
      balances := balances[buyer.user := balances[buyer.user][buyer.base := bought]];
      var earned := BalanceOf(balances, seller.user, buyer.quote) + total;
      balances := balances[seller.user := balances[seller.user][buyer.quote := earned]];
    }

    /** insort: find by bisection the first position behind everything that is not worse. */
    method Insort(r: Resting)
      requires BookSound(book)
      modifies this`book
      ensures book == Inserted(old(book), r)
    {
      var lo, hi := 0, |book|;
      InsertAtMeaning(book, r.sortIndex, |book|);
      ghost var p := InsertAt(book, r.sortIndex, |book|);
      while lo < hi
        invariant 0 <= lo <= p <= hi <= |book|
      {
        var mid := (lo + hi) / 2;
        if r.sortIndex < book[mid].sortIndex {
          hi := mid;
        } else {
          lo := mid + 1;
        }
      }
      book := book[..lo] + [r] + book[lo..];
    }
  }
}
