/**
 * `is_sz`, `is_sh` and `is_stock_code`: the two-character code prefixes of
 * Shenzhen ("30", "00") and Shanghai ("60", "68") stocks, and the six-character
 * stock codes that carry one of them.
 */
module StockCodes {

  /** A Shenzhen stock prefix: "30" or "00". */
  function IsSz(head: string): (b: bool)
    ensures b <==> |head| == 2 && head[1] == '0' && (head[0] == '3' || head[0] == '0')
  {
    head == "30" || head == "00"
  }

  /** A Shanghai stock prefix: "60" or "68". */
  function IsSh(head: string): (b: bool)
    ensures b <==> |head| == 2 && head[0] == '6' && (head[1] == '0' || head[1] == '8')
  {
    head == "60" || head == "68"
  }

  /** A stock code: six characters whose first two are one of the four prefixes. */
  function IsStockCode(code: string): (b: bool)
    ensures b ==> |code| == 6
    ensures b <==> |code| == 6 && (IsSz(code[..2]) || IsSh(code[..2]))
  {
    |code| == 6 &&
    var head := code[..2];
    head == "30" || head == "00" || head == "60" || head == "68"
  }

  /** No prefix belongs to both exchanges. */
  lemma ExchangesDisjoint(head: string)
    ensures !(IsSz(head) && IsSh(head))
  {
  }

  /** A stock code belongs to exactly one exchange, told apart by its first character. */
  lemma StockCodeExchange(code: string)
    requires IsStockCode(code)
    ensures IsSz(code[..2]) != IsSh(code[..2])
    ensures IsSh(code[..2]) <==> code[0] == '6'
  {
    assert code[..2][0] == code[0];
    ExchangesDisjoint(code[..2]);
  }
}
