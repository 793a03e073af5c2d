# Functional-analysis script: gene reader, label cleaner and top-results selection

`analisis_funcional.py` runs an over-representation analysis. It reads a list of
gene symbols from a text file, sends the list to the Enrichr service and writes
the results table to CSV. It also draws a bar chart of the most significant
categories. Most of the script is glue around I/O and libraries. This project
models its three deterministic pieces of logic and proves properties about
them.

- **Gene reader** (`leer_genes`, module `GeneList`, file `gene_list.dfy`). The
  file contents are stripped. Commas become line breaks. The text is split into
  lines. Blank lines are dropped, and the others are stripped and upper-cased.
  The model uses Python's exact `str.splitlines` semantics: its full set of
  line boundaries, "\r\n" as one break, no line for a trailing break. It is
  proved equal to a simpler reference reading, `Tokens`: cut at every comma and
  every line boundary, then keep the non-blank tokens, stripped and
  upper-cased.
- **Label cleaner** (`limpiar_texto`, module `Labels`, file `labels.dfy`). The
  text is cut at its first '(' and stripped. It is split into words, and the
  first `max_palabras` words (3 by default) are joined with single spaces.
- **Chart rows** (the data step of `graficar_resultados`, module `TopResults`,
  file `top_results.dfy`). The results table is sorted by ascending adjusted
  p-value. The first `n_resultados` rows are kept and their order is reversed,
  so the most significant bar is drawn at the top. Each row gets a cleaned
  label.

Module `Text` (`text.dfy`) holds the Python primitives the three pieces use:
- `str.isspace`, with Python's exact whitespace set over Unicode scalar values;
- `strip`, `split()` without a separator, `sep.join`, and `xs[:n]` for `n >= 0`;
- `upper`, for ASCII letters only.

`limpiar_texto` cuts at the first '(' (analisis_funcional.py:97), so any text
after the closing ')' is dropped too (`Labels.LimpiarTextoDropsParenthetical`).

## Model

| member | source | states |
|---|---|---|
| Text.Strip | analisis_funcional.py:97 | `strip()` leaves no whitespace at either end and never lengthens the text |
| Text.StripParts | analisis_funcional.py:97 | the text is whitespace, then the stripped text, then whitespace: nothing but whitespace is removed |
| Text.StripLeading | analisis_funcional.py:38 | whitespace put in front of a text does not change its `strip()` |
| Text.StripTrailing | analisis_funcional.py:38 | whitespace put after a text does not change its `strip()` |
| Text.Words | analisis_funcional.py:98 | every word of `split()` is non-empty and has no whitespace |
| Text.WordsChars | analisis_funcional.py:98 | every character of every word of `split()` comes from the text |
| Text.WordsAvoid | analisis_funcional.py:98 | a character missing from the text is missing from each of its words |
| Text.WordsStrip | analisis_funcional.py:97-98 | `split()` gives the same words whether or not the text was stripped first |
| Text.WordsOfJoin | analisis_funcional.py:98-99 | words joined with single spaces split back into the same words |
| Text.Join | analisis_funcional.py:99 | `sep.join(words)`; its properties are stated by `Text.WordsOfJoin`, `Text.JoinWordsTrimmed` and `Text.JoinAvoids` |
| Text.JoinWordsTrimmed | analisis_funcional.py:99 | words joined with a separator have no whitespace at either end |
| Text.JoinAvoids | analisis_funcional.py:99 | a character other than the separator that no joined string holds is not in the result |
| Text.Upper | analisis_funcional.py:41 | `upper()` keeps the length; what becomes of each character is stated by `Text.UpperSpec` |
| Text.UpperChar | analisis_funcional.py:41 | `upper()` of one character; its meaning is stated by `Text.UpperCharSpec` |
| Text.UpperCharSpec | analisis_funcional.py:41 | a lower-case letter becomes the capital at the same place in the alphabet "A".."Z", any other character stays, and no lower-case letter comes out |
| Text.UpperSpec | analisis_funcional.py:41 | each lower-case letter of the text becomes the capital at the same place in the alphabet, every other character is kept, no lower-case letter is left, and upper-casing again changes nothing |
| Text.Take | analisis_funcional.py:99 | `xs[:n]` is the prefix of length `min(n, len(xs))` |
| GeneList.ReplaceCommas | analisis_funcional.py:41 | `replace(",", "\n")` keeps the length and leaves no comma |
| GeneList.ReplaceCommasAppend | analisis_funcional.py:41 | the replacement works piece by piece: on a concatenation it is the concatenation of the replaced pieces |
| GeneList.ReplaceCommasUnchanged | analisis_funcional.py:41 | a text without a comma is left as it is |
| GeneList.ReplaceCommasComma | analisis_funcional.py:41 | a comma between two texts becomes '\n', and the texts on either side are replaced on their own |
| GeneList.SplitLines | analisis_funcional.py:41 | no line of `splitlines()` holds a line boundary |
| GeneList.SplitLinesLine | analisis_funcional.py:41 | a non-empty text without a line boundary is exactly one line |
| GeneList.SplitLinesBreak | analisis_funcional.py:41 | a line boundary, other than a '\r' followed by '\n', ends the line before it, and the rest is split on its own |
| GeneList.SplitLinesCrLf | analisis_funcional.py:41 | "\r\n" is a single break: it ends the line before it and opens no empty line |
| GeneList.SplitLinesFinalBreak | analisis_funcional.py:41 | a final line break opens no empty last line |
| GeneList.LeerGenes | analisis_funcional.py:38-41 | every gene read is non-empty and stripped, and holds no comma, no line boundary and no lower-case letter |
| GeneList.GenesSplitLines | analisis_funcional.py:41 | once blank lines are dropped, `splitlines()` yields the same genes as cutting at every boundary character |
| GeneList.TokensStrip | analisis_funcional.py:38 | stripping the whole file first does not change the tokens read |
| GeneList.LeerGenesIsTokens | analisis_funcional.py:38-41 | the reader equals the reference reading: the non-blank comma- or line-separated tokens, stripped and upper-cased |
| GeneList.Gene | analisis_funcional.py:41 | what one line contributes to the comprehension; stated by `GeneList.GeneIsGene` and `GeneList.GenesOfNonBlank` |
| GeneList.Genes | analisis_funcional.py:41 | the comprehension gives no more genes than there are lines; exactly which it gives is stated by `GeneList.GenesOfNonBlank` |
| GeneList.GeneIsGene | analisis_funcional.py:41 | a comma-free line without a line boundary contributes nothing or one well-formed gene |
| GeneList.GenesOfNonBlank | analisis_funcional.py:41 | the comprehension yields exactly the non-blank lines, in order, each stripped and upper-cased |
| GeneList.LeerGenesCount | analisis_funcional.py:38-41 | the number of genes is the number of non-blank comma- or line-separated tokens, duplicates included |
| GeneList.LeerGenesAt | analisis_funcional.py:38-41 | the k-th gene is the k-th non-blank token, stripped and upper-cased |
| GeneList.LeerGenesSeparator | analisis_funcional.py:41 | a comma and a line break separate alike; the genes on either side are read in order, with nothing merged or lost |
| GeneList.LeerGenesToken | analisis_funcional.py:41 | a single token gives its stripped, upper-cased text, or nothing when it is blank |
| GeneList.LeerGenesReplaceCommas | analisis_funcional.py:41 | writing line breaks in place of the commas does not change the list read |
| GeneList.LeerGenesOfGene | analisis_funcional.py:41 | a file holding a single symbol reads as exactly that symbol |
| GeneList.LeerGenesOfJoin | analisis_funcional.py:41 | a list of symbols written with commas, or one per line, reads back unchanged |
| GeneList.LeerGenesIdempotent | analisis_funcional.py:38-41 | writing the list read back with commas and reading it again gives the same list |
| Labels.BeforeParen | analisis_funcional.py:97 | `split("(")[0]` is the prefix before the first '(', or the whole text when there is none |
| Labels.LimpiarTexto | analisis_funcional.py:93-99 | `limpiar_texto(text, max_palabras)`; what the label is is stated by `Labels.LimpiarTextoSpec` |
| Labels.LimpiarTextoSpec | analisis_funcional.py:93-99 | the cleaned label holds no '(' and has no surrounding whitespace. Its words are the first `max_palabras` words before the first '(', at most `max_palabras` of them, joined by single spaces |
| Labels.LimpiarTextoKeepsAll | analisis_funcional.py:93-99 | when the text before '(' has no more words than the limit, all of them are kept |
| Labels.LimpiarTextoDropsParenthetical | analisis_funcional.py:97 | everything from the first '(' on is dropped, including text after the closing ')' |
| Labels.LimpiarTextoUnstripped | analisis_funcional.py:97-99 | the `strip()` before `split()` makes no difference to the label |
| Labels.LimpiarTextoOfWords | analisis_funcional.py:97-99 | words joined by single spaces, no more of them than the limit and none holding '(', come back unchanged, without trailing whitespace |
| Labels.LimpiarTextoAnnotated | analisis_funcional.py:93-99 | a label made of words, whitespace and a parenthesised note keeps its words when there are no more than the limit |
| Labels.LimpiarTextoIdempotent | analisis_funcional.py:97-99 | cleaning a cleaned label changes nothing |
| Labels.LimpiarTextoGoTerm | analisis_funcional.py:93-99 | "Apoptosis Regulation Pathway (GO:001234)" with limit 3 becomes "Apoptosis Regulation Pathway" |
| Labels.LimpiarTextoShortLabel | analisis_funcional.py:93-99 | "A B" with limit 3 is kept as it is |
| TopResults.Insert | analisis_funcional.py:106 | inserting a row into a sorted table keeps it sorted, and the result holds the table's rows plus that row |
| TopResults.SortValues | analisis_funcional.py:106 | `sort_values("Adjusted P-value")` is sorted by ascending adjusted p-value and is a permutation of the table |
| TopResults.Reverse | analisis_funcional.py:107 | `iloc[::-1]` has the same length, and its i-th row is the i-th row from the end |
| TopResults.ReverseMultiset | analisis_funcional.py:107 | the reversal keeps every row, as often as it occurs |
| TopResults.WithCleanLabels | analisis_funcional.py:108 | one charted row per row; the rows and labels are stated by `TopResults.WithCleanLabelsSpec` |
| TopResults.WithCleanLabelsSpec | analisis_funcional.py:108 | adding the "Term_clean" column leaves the rows unchanged, and each row's label is `limpiar_texto` of its own term with limit 3 |
| TopResults.TopRowsOf | analisis_funcional.py:106-107 | `head(n)` then `iloc[::-1]` keeps `min(n, len(sorted))` rows; which rows and in what order is stated by `TopResults.TopRowsCorrect` |
| TopResults.TopRowAt | analisis_funcional.py:106-107 | the i-th charted row is the i-th row before the cut of the sorted table, counting back |
| TopResults.TopRowsSmallest | analisis_funcional.py:106 | no row cut off the sorted table by `head` is more significant than a row kept |
| TopResults.TopRowsOrdered | analisis_funcional.py:106-107 | after the reversal, adjusted p-values do not increase along the charted rows |
| TopResults.TopRowsLeftOut | analisis_funcional.py:106 | the charted rows are rows of the table, and the rows left out are exactly the tail of the sorted table |
| TopResults.TopRowsCorrect | analisis_funcional.py:106-107 | for any sorted permutation of the table, whatever its tie order, the charted rows are `min(n, len(df))` rows of the table. No row left out is more significant than a row kept, and adjusted p-values do not increase along the result |
| TopResults.SeleccionarTop | analisis_funcional.py:106-108 | the charted table has the selection properties above, and every row carries its cleaned label |
| TopResults.MostSignificantOnTop | analisis_funcional.py:106-107 | the last charted row, drawn at the top, is at least as significant as every row of the table |
| TopResults.SeleccionarTopDefault | analisis_funcional.py:89 | with the 10 rows `ejecutar_ora` asks for, the chart holds at most ten rows, the most significant of the table, each with its cleaned label |

## Left out

- Reading the file: the existence check, `FileNotFoundError`, `open` and `read` (analisis_funcional.py:34-37). `GeneList.LeerGenes` takes the file's text as its argument.
- Console messages (analisis_funcional.py:42, 70, 80, 86, 119): they are output only.
- The enrichment call `gp.enrichr` (analisis_funcional.py:71-76): it is a network call into a library whose code is not part of this model. The results table is taken as an argument.
- The empty-table check in `ejecutar_ora` (analisis_funcional.py:79-81): it only decides whether the CSV and the chart are produced. The selection itself is defined for an empty table too, where it yields no rows.
- The output directory and the CSV export (analisis_funcional.py:61, 84-86): these are file I/O.
- Plotting (analisis_funcional.py:110-119): figure size, `barh`, labels, `savefig` and `close`. The bar lengths `-log10(padj)` are floating-point numerics.
- The command-line driver (analisis_funcional.py:123-149): argparse, and running `ejecutar_ora` twice. This is plumbing.
- Text.Upper: only ASCII letters are upper-cased. Python's full Unicode case mapping, where one character can become several, is not modelled.
- Text.Take: negative `max_palabras` and negative `n_resultados` count from the end in Python and pandas. The model takes both as `nat`.
- TopResults.SortValues: pandas' default sort is not stable, so the order among equal adjusted p-values is not modelled. Every chart property is proved for any sorted permutation instead (`TopResults.TopRowsCorrect`).
- TopResults.Row: a row keeps only the two columns the chart reads, "Term" and "Adjusted P-value". Adjusted p-values are exact reals, so NaN values and float rounding are not modelled.
