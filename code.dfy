/**
  The statements the compiler adds to the component's constructor, as
  abstract instructions instead of JavaScript text. Each constructor names
  the template the compiler fills in and the values it fills in.
*/
module Code {
  import opened Ast

  /** What a registered update rewrites: an attribute of the element, or
      the text node just appended. */
  datatype UpdateTarget = AttributeNamed(name: string) | TextNode

  datatype Instr =
      /** `let el = null; let currParent = this.shadowRoot;` */
    | DeclareCursor
      /** `currParent = currParent.parentNode || currParent.$template.parentNode;` */
    | Ascend
      /** `currParent = el;` */
    | Descend
      /** `el = document.createElement(tag)`, appended to `currParent`; inside
          a loop body also marked and collected into the loop's `nodes`. */
    | CreateElement(tag: string, inLoop: bool)
      /** `el.addEventListener(event, handler)` */
    | Listen(event: string, handler: string)
      /** The `*if` block: a placeholder template and a conditional entry
          pushed onto `$ifExpressions`, run once. */
    | IfBody(expr: string, inLoop: bool)
      /** `this.$getUpdates(proxy).push(<last conditional entry>)` */
    | RegisterConditional(proxy: string)
      /** `this.$ifExpressions = [];` */
    | ClearConditionals
      /** The timer that forwards `value` to the child's `$setProp(prop, …)`. */
    | PollProp(prop: string, value: string)
      /** `el.setAttribute(name, template)` or
          `currParent.appendChild(document.createTextNode(template))`. */
    | Render(target: UpdateTarget, template: string, inLoop: bool)
      /** `this.$getUpdates(proxy).push({isValid, update})` re-rendering the
          target from the template. */
    | RegisterUpdate(proxy: string, target: UpdateTarget, template: string, inLoop: bool)
      /** The block of a `*for` element: node list, placeholder template, the
          loop `for (header) { body }` (removed when `loopKept` is false),
          placeholder clean-up, then the loop's rebuild registrations. */
    | ForBlock(header: string, body: seq<Instr>, loopKept: bool, rebuilds: seq<Instr>)
      /** A registration under `proxy` that tears down and re-runs the loop
          `for (header) { body }`. */
    | RegisterRebuild(proxy: string, header: string, body: seq<Instr>)
      /** The `<style>` element appended to the shadow root. */
    | Style(text: string)
      /** `this.$getUpdates(proxy).push(...)` recomputing
          `this.<name>.value = <init>`. */
    | Recompute(proxy: string, name: string, init: Node)
}
