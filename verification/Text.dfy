/** Numbers written out. */
module Text {
  function Digit(n: nat): char { "0123456789"[n % 10] }

  function Decimal(n: nat): (text: string)
    ensures |text| >= 1 && (|text| == 1 <==> n < 10)
  {
    if n < 10 then [Digit(n)] else Decimal(n / 10) + [Digit(n)]
  }

  /** `text.padStart(width, '0')`. */
  function PadStart(text: string, width: nat): (padded: string)
    ensures |padded| == if |text| < width then width else |text|
  {
    if |text| < width then seq(width - |text|, _ => '0') + text else text
  }
}
