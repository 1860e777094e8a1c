/** The link renderer: `create_link(name, domain, lab)` of linkupdate.js. */
module Links {
  import opened UtilFormat

  // The fixed text of the two templates, named piece by piece.
  const HrefOpen: string := "<a href=\""
  const DomainParam: string := ".html?domain="
  const LabParam: string := "&lab="
  const AnchorClass: string := "\" class=\"sidebar-a\"> "
  const AnchorClose: string := " </a>"
  const HeadingTag: string := "<h3 class=\"text-h3-darkblue\""
  const HeadingStyle: string := " style=\"margin-top: 2px;\"> "
  const HeadingClose: string := " </h3>"

  /** `<h3 class="text-h3-darkblue" style="margin-top: 2px;"> %s </h3>` */
  const HeadingTemplate: string := HeadingTag + HeadingStyle + "%s" + HeadingClose

  /** `<a href="%s.html?domain=%s&lab=%s" class="sidebar-a"> %s </a>` */
  const AnchorTemplate: string :=
    HrefOpen + "%s" + DomainParam + "%s" + LabParam + "%s" + AnchorClass + "%s" + AnchorClose

  /** Renders one sidebar link: the heading template is filled with `name`, then
      the anchor template with `name`, `domain`, `lab` and that heading. The
      inputs are spliced in verbatim: nothing is escaped, so markup-special
      characters in any argument reach the output as they are. */
  function CreateLink(name: string, domain: string, lab: string): (r: string)
    ensures r == "<a href=\"" + name + ".html?domain=" + domain + "&lab=" + lab
               + "\" class=\"sidebar-a\"> " + "<h3 class=\"text-h3-darkblue\""
               + " style=\"margin-top: 2px;\"> " + name + " </h3>" + " </a>"
  {
    var heading := Format(HeadingTemplate, [name]);
    LiteralJoin(HeadingTag, HeadingStyle);
    FillOne(HeadingTag + HeadingStyle, HeadingClose, name);
    FillFour(HrefOpen, DomainParam, LabParam, AnchorClass, AnchorClose, name, domain, lab, heading);
    Format(AnchorTemplate, [name, domain, lab, heading])
  }
}
