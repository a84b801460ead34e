/**
 * The parts of `processar_pdfs` in lib/extrator.py that do not touch the
 * outside world: choosing the PDF from the directory listing, building the
 * prompt, and the composition of text extraction, the model call and the
 * table parser. The directory listing, the page texts of a file and the
 * model's completion are parameters.
 */
module Extractor {
  import opened Wrappers
  import opened Text
  import opened MarkdownTable
  import opened PdfText

  const PdfSuffix: string := ".pdf"

  /** The message of the exception raised when the listing holds no PDF. */
  const NoPdfMessage: string := "Nenhum PDF encontrado na pasta temporária."

  /** `PROMPT_BASE`: the fixed instructions that open every prompt. */
  const PromptBase: string :=
    "\nVocê é a IA PANDA, especializada em extrair informações de artigos científicos.\n"
    + "Sua função é ler o texto de um artigo científico e devolver uma tabela com três colunas:\n"
    + "TÍTULO | AUTOR | E-MAIL\n"
    + "\n"
    + "Regras:\n"
    + "- Cada linha da tabela deve conter o título do artigo (repetido se houver vários autores),\n"
    + "  o nome de um autor e o e-mail correspondente (ou em branco, se não houver).\n"
    + "- Nunca invente, complete ou interprete nomes ou e-mails.\n"
    + "- Se o título estiver em inglês e também houver uma versão em português, use o em português.\n"
    + "- A resposta deve ser sempre uma tabela legível em Markdown.\n"

  /** What comes between `PromptBase` and the article text, ending in the opening `'''`. */
  const ArticleOpening: string := "\n\nTexto do artigo:\n'''"

  /** What follows the article text: the closing `'''` and the final instruction. */
  const ArticleClosing: string := "'''\n\nResponda somente com a tabela."

  /** The names in the listing that end in `.pdf`, in listing order. */
  function PdfNames(listing: seq<string>): (names: seq<string>)
    ensures |names| <= |listing|
    ensures forall k :: 0 <= k < |names| ==> EndsWith(names[k], PdfSuffix)
    ensures forall x :: x in names <==> x in listing && EndsWith(x, PdfSuffix)
  {
    if listing == [] then []
    else (if EndsWith(listing[0], PdfSuffix) then [listing[0]] else []) + PdfNames(listing[1..])
  }

  /**
   * The file `processar_pdfs` reads: the first `.pdf` name of the listing, or
   * the "no PDF" error when there is none.
   */
  function SelectPdf(listing: seq<string>): (r: Result<string, string>)
    ensures r.Failure? <==> forall k :: 0 <= k < |listing| ==> !EndsWith(listing[k], PdfSuffix)
    ensures r.Failure? ==> r.error == NoPdfMessage
    ensures r.Success? ==> r.value in listing && EndsWith(r.value, PdfSuffix)
  {
    var names := PdfNames(listing);
    if names == [] then
      assert forall k :: 0 <= k < |listing| ==> listing[k] in listing;
      Failure(NoPdfMessage)
    else
      assert names[0] in names;
      Success(names[0])
  }

  /** Names before the first PDF contribute nothing to the PDF names. */
  lemma {:induction false} PdfNamesSkip(listing: seq<string>, k: nat)
    requires k <= |listing|
    requires forall j :: 0 <= j < k ==> !EndsWith(listing[j], PdfSuffix)
    ensures PdfNames(listing) == PdfNames(listing[k..])
  {
    if k > 0 {
      PdfNamesSkip(listing[1..], k - 1);
      assert listing[1..][k - 1..] == listing[k..];
    }
  }

  /** The selected file is the first name in the listing that ends in `.pdf`. */
  lemma SelectFirstPdf(listing: seq<string>, k: nat)
    requires k < |listing| && EndsWith(listing[k], PdfSuffix)
    requires forall j :: 0 <= j < k ==> !EndsWith(listing[j], PdfSuffix)
    ensures SelectPdf(listing) == Success(listing[k])
  {
    PdfNamesSkip(listing, k);
  }

  /** The number of characters the prompt adds around the article text. */
  const PromptOverhead: nat := |PromptBase| + |ArticleOpening| + |ArticleClosing|

  /** The prompt sent to the model for an article text. */
  function BuildPrompt(text: string): (prompt: string)
    ensures |prompt| == PromptOverhead + |text|
    ensures prompt[..|PromptBase|] == PromptBase
    ensures prompt[|PromptBase|..|PromptBase| + |ArticleOpening|] == ArticleOpening
    ensures prompt[|prompt| - |ArticleClosing|..] == ArticleClosing
    ensures ArticleText(prompt) == text
  {
    PromptBase + ArticleOpening + text + ArticleClosing
  }

  /** The article text between the `'''` delimiters of a prompt. */
  function ArticleText(prompt: string): (text: string)
    requires |prompt| >= PromptOverhead
  {
    prompt[|PromptBase| + |ArticleOpening|..|prompt| - |ArticleClosing|]
  }

  /** Different article texts give different prompts. */
  lemma BuildPromptInjective(a: string, b: string)
    requires BuildPrompt(a) == BuildPrompt(b)
    ensures a == b
  {
    assert ArticleText(BuildPrompt(a)) == a;
  }

  /** What the model returns: the reply's text and the number of tokens used. */
  datatype Completion = Completion(content: string, totalTokens: nat)

  /**
   * `processar_pdfs`, with the outside world as parameters: `pagesOf` gives
   * the page texts of a listed file and `complete` the model's completion for
   * a prompt. The result is the DataFrame and the token count, or the error
   * raised when no PDF is listed.
   */
  function ProcessPdfs(listing: seq<string>, pagesOf: string -> seq<Option<string>>, complete: string -> Completion)
    : (r: Result<(seq<Row>, nat), string>)
    ensures r.Failure? <==> forall k :: 0 <= k < |listing| ==> !EndsWith(listing[k], PdfSuffix)
    ensures r.Failure? ==> r.error == NoPdfMessage
    ensures r.Success? ==> |r.value.0| >= 1
  {
    match SelectPdf(listing)
    case Failure(e) => Failure(e)
    case Success(name) =>
      var completion := complete(BuildPrompt(FirstPagesText(pagesOf(name))));
      Success((TableOf(completion.content), completion.totalTokens))
  }

  /**
   * Only the first PDF of the listing is processed: its first pages' text is
   * embedded in the prompt, and the model's reply is parsed into the result.
   */
  lemma ProcessFirstPdf(listing: seq<string>, k: nat, pagesOf: string -> seq<Option<string>>, complete: string -> Completion)
    requires k < |listing| && EndsWith(listing[k], PdfSuffix)
    requires forall j :: 0 <= j < k ==> !EndsWith(listing[j], PdfSuffix)
    ensures var completion := complete(BuildPrompt(FirstPagesText(pagesOf(listing[k]))));
            ProcessPdfs(listing, pagesOf, complete) == Success((TableOf(completion.content), completion.totalTokens))
  {
    SelectFirstPdf(listing, k);
  }

  /** Files listed after the first PDF never influence the result. */
  lemma LaterFilesIgnored(listing: seq<string>, k: nat, more: seq<string>,
                          pagesOf: string -> seq<Option<string>>, complete: string -> Completion)
    requires k < |listing| && EndsWith(listing[k], PdfSuffix)
    requires forall j :: 0 <= j < k ==> !EndsWith(listing[j], PdfSuffix)
    ensures ProcessPdfs(listing[..k + 1] + more, pagesOf, complete) == ProcessPdfs(listing, pagesOf, complete)
  {
    var other := listing[..k + 1] + more;
    assert other[k] == listing[k];
    assert forall j :: 0 <= j < k ==> other[j] == listing[j];
    SelectFirstPdf(listing, k);
    SelectFirstPdf(other, k);
  }
}
