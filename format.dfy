/** `formatEpub` (epubserver.py:186-252): the colour pass, then the link pass, then the image
    pass, each on the text the previous one produced. */
module Format {
  import opened Wrappers
  import opened Strings
  import ColourPass
  import LinkPass
  import ImagePass

  /** The formatted page, or `None` when the link pass would need more than `fuel` turns. */
  function Formatted(ctx: LinkPass.Context, content: string, fuel: nat): Option<string>
  {
    match LinkPass.Linked(ctx, ColourPass.Stripped(content), fuel)
    case None => None
    case Some(linked) => Some(ImagePass.Imaged(ctx.file, linked))
  }

  /** The three passes run in turn, as the source runs them. */
  method FormatEpub(ctx: LinkPass.Context, content: string, fuel: nat) returns (r: Option<string>)
    ensures r == Formatted(ctx, content, fuel)
  {
    var stripped := ColourPass.StripColours(content);
    var linked := LinkPass.RewriteLinks(ctx, stripped, fuel);
    if linked.None? {
      return None;
    }
    var imaged := ImagePass.RewriteImages(ctx.file, linked.value);
    r := Some(imaged);
  }

  /** Fuel only decides whether formatting finishes, never what it produces. */
  lemma FormattedWithMoreFuel(ctx: LinkPass.Context, content: string, fuel: nat, more: nat)
    requires Formatted(ctx, content, fuel).Some? && fuel <= more
    ensures Formatted(ctx, content, more) == Formatted(ctx, content, fuel)
  {
    LinkPass.MoreFuelSameResult(ctx, ColourPass.Stripped(content), 0, fuel, more);
  }

  /** A page with no `style="`, no `<a `, no `src="` and no `xlink:href="` is served as it is. */
  lemma PlainPageIsUnchanged(ctx: LinkPass.Context, content: string, fuel: nat)
    requires NoneFrom(content, ColourPass.StyleOpen, 0) && NoneFrom(content, LinkPass.AnchorOpen, 0)
    requires NoneFrom(content, ImagePass.Opening(ImagePass.Src), 0) && NoneFrom(content, ImagePass.Opening(ImagePass.XLink), 0)
    ensures Formatted(ctx, content, fuel) == Some(content)
  {
    ColourPass.StepWithoutStyle(content, 0);
    LinkPass.NoAnchorNoChange(ctx, content, 0, fuel);
    ImagePass.NoReferenceNoChange(ctx.file, content);
  }
}
