/** The order book object: three maps updated in place by each message. */
module LimitOrderBook {
  import opened Prelude
  import opened Protocol
  import opened Books
  import BookTops
  import BookProofs

  class OrderBook {
    var liveOrders: Live
    var bids: Levels
    var asks: Levels

    constructor ()
      ensures Contents() == EMPTY_BOOK
    {
      liveOrders, bids, asks := map[], map[], map[];
    }

    function Contents(): Book
      reads this
    {
      Book(liveOrders, bids, asks)
    }

    method AddToSide(side: Side, price: u32, quantity: u32)
      modifies this
      ensures Contents() == AddLevel(old(Contents()), side, price, quantity)
    {
      if side == Buy {
        bids := bids[price := ((if price in bids then bids[price] else 0) + quantity) % 0x1_0000_0000];
        return;
      }
      asks := asks[price := ((if price in asks then asks[price] else 0) + quantity) % 0x1_0000_0000];
    }

    method SubtractFromSide(side: Side, price: u32, quantity: u32)
      modifies this
      ensures Contents() == SubtractLevel(old(Contents()), side, price, quantity)
    {
      if side == Buy {
        if price !in bids {
          return;
        }
        if bids[price] <= quantity {
          bids := bids - {price};
          return;
        }
        bids := bids[price := bids[price] - quantity];
        return;
      }
      if price !in asks {
        return;
      }
      if asks[price] <= quantity {
        asks := asks - {price};
        return;
      }
      asks := asks[price := asks[price] - quantity];
    }

    method Erase(orderId: u64)
      modifies this
      ensures Contents() == EraseOrder(old(Contents()), orderId)
    {
      if orderId !in liveOrders {
        return;
      }
      var order := liveOrders[orderId];
      SubtractFromSide(order.side, order.price, order.quantity);
      liveOrders := liveOrders - {orderId};
    }

    method ApplyAdd(add: Message)
      requires add.AddOrderMsg?
      modifies this
      ensures Contents() == Apply(old(Contents()), Decode(add))
    {
      hide AddToLevel, SubtractFromLevel;
      var event := Decode(add);
      if event.side.None? {
        return;
      }
      Erase(event.id);
      var state := Order(event.side.value, event.quantity, event.price);
      AddToSide(state.side, state.price, state.quantity);
      liveOrders := liveOrders[event.id := state];
    }

    method ApplyModify(modified: Message)
      requires modified.ModifyOrderMsg?
      modifies this
      ensures Contents() == Apply(old(Contents()), Decode(modified))
    {
      hide AddToLevel, SubtractFromLevel;
      var event := Decode(modified);
      if event.id !in liveOrders {
        return;
      }
      var order := liveOrders[event.id];
      SubtractFromSide(order.side, order.price, order.quantity);
      order := order.(price := event.price, quantity := event.quantity);
      if order.quantity == 0 {
        liveOrders := liveOrders - {event.id};
        return;
      }
      AddToSide(order.side, order.price, order.quantity);
      liveOrders := liveOrders[event.id := order];
    }

    method ApplyDelete(deleted: Message)
      requires deleted.DeleteOrderMsg?
      modifies this
      ensures Contents() == Apply(old(Contents()), Decode(deleted))
    {
      Erase(Decode(deleted).id);
    }

    method ApplyTrade(trade: Message)
      requires trade.TradeMsg?
      modifies this
      ensures Contents() == Apply(old(Contents()), Decode(trade))
    {
      hide AddToLevel, SubtractFromLevel;
      var event := Decode(trade);
      if event.id !in liveOrders {
        return;
      }
      var order := liveOrders[event.id];
      var executed := Min(order.quantity, event.quantity);
      SubtractFromSide(order.side, order.price, executed);
      order := order.(quantity := order.quantity - executed);
      liveOrders := liveOrders[event.id := order];
      if order.quantity == 0 {
        liveOrders := liveOrders - {event.id};
      }
    }

    method BestBidAndOffer() returns (snapshot: Bbo)
      ensures snapshot == BboOf(Contents())
      ensures BookProofs.Sound(Contents()) && BookProofs.Fits(liveOrders) ==>
                (snapshot == BookTops.ScanBbo(liveOrders) <==> BookTops.TopsListed(Contents()))
    {
      snapshot := Bbo(None, None);
      if bids != map[] {
        var bid := LastKey(bids.Keys);
        snapshot := snapshot.(bestBid := Some(Level(bid, bids[bid])));
      }
      if asks != map[] {
        var ask := FirstKey(asks.Keys);
        snapshot := snapshot.(bestAsk := Some(Level(ask, asks[ask])));
      }
      ghost var b := Contents();
      if BookProofs.Sound(b) && BookProofs.Fits(b.live) {
        BookTops.BboIsScanExactly(b);
      }
    }

    /** Apply one message. The index maps stay in step exactly when the resulting sums fit. */
    method ApplyMessage(message: Message) returns (result: ApplyResult)
      modifies this
      ensures Contents() == Apply(old(Contents()), Decode(message))
      ensures liveOrders == BookProofs.LiveAfter(old(liveOrders), Decode(message))
      ensures old(BookProofs.Sound(Contents())) ==>
                (BookProofs.Sound(Contents()) <==> BookProofs.Fits(liveOrders))
      ensures result == ApplyResult(BboOf(old(Contents())), BboOf(Contents()))
    {
      ghost var was := Contents();
      var before := BestBidAndOffer();
      match message {
        case AddOrderMsg(_, _, _, _, _, _) => ApplyAdd(message);
        case ModifyOrderMsg(_, _, _, _, _) => ApplyModify(message);
        case DeleteOrderMsg(_, _, _) => ApplyDelete(message);
        case TradeMsg(_, _, _, _, _) => ApplyTrade(message);
      }
      var after := BestBidAndOffer();
      BookProofs.ApplyLive(was, Decode(message));
      if BookProofs.Sound(was) {
        BookProofs.ApplySoundExactly(was, Decode(message));
      }
      return ApplyResult(before, after);
    }
  }
}
