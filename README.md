# ICMS DIFAL for Paraná, modelled in Dafny

This project models the DIFAL simulator for the Brazilian state of Paraná.
DIFAL is the ICMS interstate rate differential. The model has two parts.

- `difal.dfy`, module `Difal`: the DIFAL calculation for one product line.
  Paraná's internal rate is fixed at 19.5% (`AliquotaInternaPR = 39/2`). The
  product value is grossed up "por dentro" by that rate. The destination tax
  is 19.5% of the grossed-up base. The origin tax is the interstate rate
  applied "por fora" to the plain value. The DIFAL is destination tax minus
  origin tax, with no clamp. The effective rate is the DIFAL as a percentage
  of the value. A value of zero or less gives four zeros.
  `CalcularDifalCom` takes the internal rate as a parameter, with
  `0 <= r < 100` so that the gross-up divisor is positive. `CalcularDifal` is
  that function at 19.5%. The three simulated lines use the interstate rates
  4%, 7% and 12% (`AliquotasCenarios`).
- `format.dfy`, module `Format`: the text post-processing of the display
  helpers. `FormatBrl` prefixes "R$ " and swaps the separators with the three
  chained single-character replacements ',' → 'X', '.' → ',', 'X' → '.'.
  `FormatPct` appends "%". The numeral these helpers receive comes from the
  host language's float formatting, so it is a parameter here. `Numeral`
  describes its shape: an optional '-', digit groups split by a thousands
  separator, a decimal separator and two digits.

All amounts and rates are exact `real`s.

What is proved:
- zero or negative values give all zeros;
- the base satisfies `base * (1 - r/100) == valor`, so it never shrinks and
  grows strictly when `r > 0`;
- the destination tax is embedded in the base: `base - destination tax == valor`;
- the origin tax is computed on the plain value;
- the effective rate equals `100r/(100-r) - aliqInter`, so it does not depend
  on the value;
- base, origin tax and DIFAL are linear in the value;
- the DIFAL is negative exactly when the interstate rate exceeds
  `100r/(100-r)`, which is 3900/161 ≈ 24.22% for Paraná;
- every simulated line (4%, 7%, 12%) owes a positive DIFAL;
- the separator swap maps each character as described, is its own inverse
  on strings without 'X', and turns a '1,234.56' numeral into a '1.234,56'
  numeral.

## Model

| member | source | states |
|---|---|---|
| `Difal.CalcularDifalCom` | app.py:16-46 | For `valor <= 0` the result is all zeros whatever the interstate rate. Otherwise `base * (100 - r) == 100 * valor`, `100 * icmsOrigem == valor * aliqInter`, and DIFAL plus origin tax is `r`% of the base. |
| `Difal.CalcularDifal` | app.py:8-38 | With the fixed 19.5% rate: all zeros for `valor <= 0`. Otherwise `161 * base == 200 * valor` (base = valor / 0.805) and the origin tax is `aliqInter`% of the value. |
| `Difal.ImpostoPorDentro` | app.py:32-35 | For `valor > 0`, the base minus the destination tax (DIFAL plus origin tax) is exactly the product value. |
| `Difal.BaseNuncaMenor` | app.py:32 | For `valor > 0`, `base >= valor`, and `base > valor` if and only if the internal rate is positive. |
| `Difal.BasePRMaiorQueValor` | app.py:8-32 | With Paraná's rate and `valor > 0`, the base strictly exceeds the value. |
| `Difal.EfetivaIndependeDoValor` | app.py:32-44 | For `valor > 0`, the effective rate equals `Limiar(r) - aliqInter`, where `Limiar(r) = 100r/(100-r)` is the break-even rate. |
| `Difal.EfetivaIgualEntreValores` | app.py:44 | Any two positive values give the same effective rate. |
| `Difal.LinearNoValor` | app.py:32-44 | Multiplying the value by `k > 0` multiplies base, origin tax and DIFAL by `k` and keeps the effective rate. |
| `Difal.SinalDoDifal` | app.py:41 | For `valor > 0`: DIFAL is negative iff `aliqInter > Limiar(r)`, zero iff equal, and positive iff below. |
| `Difal.LimiarPR` | app.py:8 | Paraná's break-even interstate rate is exactly 3900/161. |
| `Difal.DifalPRNegativo` | app.py:41-44 | With Paraná's rate and `valor > 0`: DIFAL is negative iff `aliqInter > 3900/161`, and the effective rate is `3900/161 - aliqInter`. |
| `Difal.CenariosDifalPositivo` | app.py:58-62 | For each of the three simulated interstate rates (4, 7, 12) and any `valor > 0`, the DIFAL is positive. |
| `Difal.ExemploPR1000a4` | app.py:27-46 | A 1000 line at 4% gives base 200000/161, origin tax 40, DIFAL 32560/161 and effective rate 3256/161. |
| `Format.Replace` | app.py:50 | Replacing one character keeps the length and changes exactly the occurrences of `from` into `to`. |
| `Format.SwapSeparators` | app.py:50 | The chained replacements keep the length. Each output character is `SwapChar` of the input character: ',' and '.' trade places, 'X' becomes '.', and the rest is kept. The output has no 'X'. |
| `Format.SwapSeparatorsSemXis` | app.py:50 | On an input without 'X', a position holds ',' iff the output holds '.' there, and '.' iff the output holds ','. Every other character is unchanged. |
| `Format.SwapSeparatorsInvolutive` | app.py:50 | On an input without 'X', swapping twice returns the input. |
| `Format.FormatBrl` | app.py:48-50 | The currency text is "R$ " followed by the swapped numeral, because the prefix has no separator. |
| `Format.FormatPct` | app.py:52-54 | The percentage text is the numeral followed by one trailing '%'. |
| `Format.NumeralHasNoX` | app.py:50 | A numeral in the '1,234.56' convention contains no 'X', so the placeholder cannot clash with it. |
| `Format.SwapGrouped` | app.py:50 | An integer part grouped with ',' becomes the same digits grouped with '.'. |
| `Format.SwapNumeral` | app.py:50 | A '1,234.56' numeral (optionally negative) becomes a '1.234,56' numeral. |
| `Format.FormatBrlNumeral` | app.py:50 | For a '1,234.56' numeral, the currency text starts with "R$ ". The rest is a Brazilian-convention numeral, and swapping it back gives the original numeral. |
| `Format.ExemploFormatBrl` | app.py:50 | "1,242.24" is rendered as "R$ 1.242,24". |

## Left out

- The Streamlit page: page setup, number inputs, the button and the
  markdown and warning output (app.py:1-14, app.py:56-76). These are UI calls
  into a library outside the model.
- The loop over the three scenarios (app.py:64-76). It only calls the
  calculation and displays the result. Its one branch, "no value entered"
  for `valor_input <= 0`, is presentation. The scenario rates themselves are
  modelled as `AliquotasCenarios`.
- The float-to-text conversion `{:,.2f}` and `{:.2f}` (app.py:50, app.py:54).
  This includes IEEE rounding to two decimals and digit grouping. `FormatBrl`
  and `FormatPct` take the converted numeral as a parameter.
- IEEE-754 floating point in general. The model uses exact reals, so the
  rounded display values (for example 1242.24) are not reproduced.
- Internal rates of 100% or more. The source uses the constant 19.5 and
  never reaches them. `CalcularDifalCom` requires `0 <= r < 100` because the
  gross-up divides by `1 - r/100`.
- The "unified base" method with its zero clamp, free-text and preset
  parsing of the internal rate, and a total over lines. None of these exists
  in app.py, so the model follows the code and omits them.
- The 17% variant in `app (1).py`. It has the same calculation with another
  constant, which `CalcularDifalCom(17.0, …)` covers. It is not modelled
  separately.
